/**
  The site store (mappings.py). The `websites` part of the vault file is a
  dict from `sha256(url)` to an entry; loading and saving the file become
  the dict passed in and returned. Adding a site creates or merges its
  entry; two indexes are built from the store for a visit: alias to site
  hash, and site hash to decrypted password.
 */
module Mappings {
  import opened Base
  import opened Crypto
  import opened Strings
  import opened Encryption
  import Dict

  /**
    One site: its URL, its aliases ("keys"), and the optional `password`
    (a Fernet token as text) and `username` fields, `None` when absent.
   */
  datatype Entry = Entry(url: string, keys: seq<string>, password: Option<string>, username: Option<string>)

  type Websites = Dict.Dict<Entry>

  function KeySet(e: Entry): set<string> {
    set a | a in e.keys
  }

  /** The entry `add_website_to_database` creates for an unknown URL. */
  function NewEntry(url: string, keys: seq<string>, password: Option<string>, username: Option<string>): (e: Entry)
    ensures e.url == url && e.keys == keys
    ensures e.password.Some? <==> Truthy(password)
    ensures e.password.Some? ==> e.password == password
    ensures e.username.Some? <==> Truthy(username)
    ensures e.username.Some? ==> e.username == username
  {
    Entry(url, keys,
      if Truthy(password) then password else None,
      if Truthy(username) then username else None)
  }

  /** The entry `add_website_to_database` makes of a known one. */
  function MergeEntry(e: Entry, keys: seq<string>, password: Option<string>, username: Option<string>): (r: Entry)
    ensures r.url == e.url
    ensures KeySet(r) == KeySet(e) + set a | a in keys
    ensures NoDuplicates(r.keys)
    ensures r.password == if Truthy(password) then password else e.password
    ensures r.username == if Truthy(username) then username else e.username
  {
    var merged := Dedup(e.keys + keys);
    assert KeySet(Entry(e.url, merged, None, None)) == KeySet(e) + set a | a in keys by {
      forall a | a in merged ensures a in e.keys + keys {
        var i :| 0 <= i < |merged| && merged[i] == a;
      }
      forall a | a in e.keys + keys ensures a in merged {
        var i :| 0 <= i < |e.keys + keys| && (e.keys + keys)[i] == a;
      }
    }
    Entry(e.url, merged,
      if Truthy(password) then password else e.password,
      if Truthy(username) then username else e.username)
  }

  /**
    `add_website_to_database(url, keys, password, username)` on the loaded
    `websites` dict: the entry under `sha256(url)` is merged in place (it
    keeps its position in dict order) if present and created at the end of
    the dict if not; nothing else changes.
   */
  function AddWebsiteToDatabase(p: Primitives, websites: Websites, url: string, keys: seq<string>,
                                password: Option<string>, username: Option<string>): (r: Websites)
    requires Dict.Valid(websites)
    ensures Dict.Valid(r)
    ensures Dict.Keys(r) == Dict.Keys(websites) + {p.sha256(url)}
    ensures forall h :: h != p.sha256(url) ==> Dict.Get(r, h) == Dict.Get(websites, h)
    ensures Dict.Get(websites, p.sha256(url)).None? ==>
      r.items == websites.items + [(p.sha256(url), NewEntry(url, keys, password, username))]
    ensures Dict.Get(websites, p.sha256(url)).Some? ==>
      r.items == websites.items[Dict.Find(websites, p.sha256(url)).value
        := (p.sha256(url), MergeEntry(Dict.Get(websites, p.sha256(url)).value, keys, password, username))]
    ensures Dict.Get(websites, p.sha256(url)).Some? ==>
      Dict.Get(r, p.sha256(url)) == Some(MergeEntry(Dict.Get(websites, p.sha256(url)).value, keys, password, username))
  {
    var h := p.sha256(url);
    var entry := match Dict.Get(websites, h)
      case Some(e) => MergeEntry(e, keys, password, username)
      case None => NewEntry(url, keys, password, username);
    Dict.PutSpec(websites, h, entry);
    Dict.Put(websites, h, entry)
  }

  /** Two entries agree once the order and repetition of their aliases is ignored. */
  predicate SameAsSets(a: Entry, b: Entry) {
    a.url == b.url && KeySet(a) == KeySet(b) && a.password == b.password && a.username == b.username
  }

  /** Repeating an identical add changes nothing but, possibly, the order and repetition of aliases. */
  lemma AddIsIdempotent(p: Primitives, websites: Websites, url: string, keys: seq<string>,
                        password: Option<string>, username: Option<string>)
    requires Dict.Valid(websites)
    ensures var once := AddWebsiteToDatabase(p, websites, url, keys, password, username);
      var twice := AddWebsiteToDatabase(p, once, url, keys, password, username);
      && Dict.Keys(twice) == Dict.Keys(once)
      && (forall h :: h != p.sha256(url) ==> Dict.Get(twice, h) == Dict.Get(once, h))
      && SameAsSets(Dict.Get(twice, p.sha256(url)).value, Dict.Get(once, p.sha256(url)).value)
  {
    var h := p.sha256(url);
    var once := AddWebsiteToDatabase(p, websites, url, keys, password, username);
    var twice := AddWebsiteToDatabase(p, once, url, keys, password, username);
    var e1 := Dict.Get(once, h).value;
    assert Dict.Get(twice, h) == Some(MergeEntry(e1, keys, password, username));
    match Dict.Get(websites, h) {
      case None =>
        Dict.GetAt(once, |websites.items|);
        assert e1 == NewEntry(url, keys, password, username);
      case Some(e0) =>
        assert e1 == MergeEntry(e0, keys, password, username);
    }
  }

  /** `site_mapping[key] = url_hash` for every key of one entry, in order. */
  function AssignKeys(m: map<string, string>, keys: seq<string>, h: string): (r: map<string, string>)
    ensures r.Keys == m.Keys + set a | a in keys
    ensures forall a :: a in keys ==> r[a] == h
    ensures forall a :: a in m && a !in keys ==> r[a] == m[a]
    decreases |keys|
  {
    if keys == [] then m
    else
      var r := AssignKeys(m[keys[0] := h], keys[1..], h);
      assert forall a :: a in keys <==> a == keys[0] || a in keys[1..];
      r
  }

  /**
    `create_site_mapping` on the entries in dict order (a left fold: the
    mapping after the first `n` entries is extended by entry `n`).
   */
  function CreateSiteMapping(items: seq<(string, Entry)>): (m: map<string, string>)
  {
    if items == [] then map[]
    else
      var last := items[|items| - 1];
      AssignKeys(CreateSiteMapping(items[..|items| - 1]), last.1.keys, last.0)
  }

  /** Entry `j` is the last one, in dict order, to list `alias`. */
  ghost predicate LastToList(items: seq<(string, Entry)>, alias: string, j: int) {
    && 0 <= j < |items|
    && alias in items[j].1.keys
    && forall j' :: j < j' < |items| ==> alias !in items[j'].1.keys
  }

  /**
    The alias index holds exactly the aliases of all entries, and maps each
    one to the hash of the LAST entry listing it: on a shared alias, the
    later entry wins.
   */
  lemma {:induction false} SiteMappingIsLastListing(items: seq<(string, Entry)>, alias: string)
    ensures alias in CreateSiteMapping(items) <==> exists j :: 0 <= j < |items| && alias in items[j].1.keys
    ensures alias in CreateSiteMapping(items) ==>
      exists j :: LastToList(items, alias, j) && CreateSiteMapping(items)[alias] == items[j].0
  {
    if items != [] {
      var n := |items| - 1;
      var prefix := items[..n];
      SiteMappingIsLastListing(prefix, alias);
      assert forall j :: 0 <= j < n ==> prefix[j] == items[j];
      if alias in items[n].1.keys {
        assert LastToList(items, alias, n);
      } else if alias in CreateSiteMapping(items) {
        var j :| LastToList(prefix, alias, j) && CreateSiteMapping(prefix)[alias] == prefix[j].0;
        assert LastToList(items, alias, j);
      } else {
        forall j | 0 <= j < |items| ensures alias !in items[j].1.keys {
          if j < n {
            assert prefix[j] == items[j];
          }
        }
      }
    }
  }

  /** Every alias in the index leads to an entry of the store that lists it. */
  lemma SiteMappingLeadsToListingEntry(websites: Websites, alias: string)
    requires Dict.Valid(websites)
    requires alias in CreateSiteMapping(websites.items)
    ensures Dict.Get(websites, CreateSiteMapping(websites.items)[alias]).Some?
    ensures alias in Dict.Get(websites, CreateSiteMapping(websites.items)[alias]).value.keys
  {
    SiteMappingIsLastListing(websites.items, alias);
    var j :| LastToList(websites.items, alias, j)
      && CreateSiteMapping(websites.items)[alias] == websites.items[j].0;
    Dict.GetAt(websites, j);
  }

  /** The result `decrypt` gives for one entry, or the exception it raises. */
  function DecryptEntry(p: Primitives, appKey: Text, e: Entry): Result<Option<string>, Error> {
    match e.password
    case None => Err(KeyError("password"))
    case Some(c) => Decrypt(p, Some(c), appKey)
  }

  /**
    `create_password_mapping(app_key, user_data)` on the entries in dict
    order: the first entry without a `password` field raises `KeyError`, the
    first undecryptable one raises the cipher's exception.
   */
  function CreatePasswordMapping(p: Primitives, appKey: Text, items: seq<(string, Entry)>)
    : (r: Result<map<string, Option<string>>, Error>)
  {
    if items == [] then Ok(map[])
    else
      var n := |items| - 1;
      match CreatePasswordMapping(p, appKey, items[..n])
      case Err(e) => Err(e)
      case Ok(m) =>
        match DecryptEntry(p, appKey, items[n].1)
        case Err(e) => Err(e)
        case Ok(pw) => Ok(m[items[n].0 := pw])
  }

  /** The hashes a list of dict items holds. */
  function Hashes(items: seq<(string, Entry)>): set<string> {
    set i | 0 <= i < |items| :: items[i].0
  }

  lemma HashesOfPrefix(items: seq<(string, Entry)>)
    requires items != []
    ensures Hashes(items) == Hashes(items[..|items| - 1]) + {items[|items| - 1].0}
  {
    var n := |items| - 1;
    forall x | x in Hashes(items) ensures x in Hashes(items[..n]) + {items[n].0} {
      var i :| 0 <= i < |items| && items[i].0 == x;
      if i < n { assert items[..n][i].0 == x; }
    }
    forall x | x in Hashes(items[..n]) ensures x in Hashes(items) {
      var i :| 0 <= i < n && items[..n][i].0 == x;
      assert items[i].0 == x;
    }
  }

  /**
    The password map succeeds exactly when every entry has a password that
    decrypts; it then maps exactly the stored hashes. Otherwise it raises
    what the first failing entry raises.
   */
  lemma {:induction false} PasswordMappingSpec(p: Primitives, appKey: Text, items: seq<(string, Entry)>)
    ensures CreatePasswordMapping(p, appKey, items).Ok?
      <==> forall i :: 0 <= i < |items| ==> DecryptEntry(p, appKey, items[i].1).Ok?
    ensures CreatePasswordMapping(p, appKey, items).Ok? ==>
      CreatePasswordMapping(p, appKey, items).value.Keys == Hashes(items)
    ensures CreatePasswordMapping(p, appKey, items).Err? ==>
      exists i :: FirstFailure(p, appKey, items, i)
        && DecryptEntry(p, appKey, items[i].1) == Err(CreatePasswordMapping(p, appKey, items).error)
  {
    if items != [] {
      var n := |items| - 1;
      var prefix := items[..n];
      PasswordMappingSpec(p, appKey, prefix);
      HashesOfPrefix(items);
      assert forall j :: 0 <= j < n ==> prefix[j] == items[j];
      var rp := CreatePasswordMapping(p, appKey, prefix);
      if rp.Err? {
        var i :| FirstFailure(p, appKey, prefix, i) && DecryptEntry(p, appKey, prefix[i].1) == Err(rp.error);
        assert FirstFailure(p, appKey, items, i);
      } else if DecryptEntry(p, appKey, items[n].1).Err? {
        assert FirstFailure(p, appKey, items, n);
      }
    }
  }

  /** Entry `i` is the first whose password cannot be produced. */
  ghost predicate FirstFailure(p: Primitives, appKey: Text, items: seq<(string, Entry)>, i: int) {
    && 0 <= i < |items|
    && DecryptEntry(p, appKey, items[i].1).Err?
    && forall j :: 0 <= j < i ==> DecryptEntry(p, appKey, items[j].1).Ok?
  }

  /** In a valid store, each hash maps to the decrypted password of the entry stored under it. */
  lemma {:induction false} PasswordMappingValues(p: Primitives, appKey: Text, websites: Websites, i: nat)
    requires Dict.Valid(websites) && i < |websites.items|
    requires CreatePasswordMapping(p, appKey, websites.items).Ok?
    ensures websites.items[i].0 in CreatePasswordMapping(p, appKey, websites.items).value
    ensures DecryptEntry(p, appKey, websites.items[i].1)
      == Ok(CreatePasswordMapping(p, appKey, websites.items).value[websites.items[i].0])
    decreases |websites.items|
  {
    var items := websites.items;
    var n := |items| - 1;
    var prefix := Dict.Dict(items[..n]);
    PasswordMappingSpec(p, appKey, items);
    if i < n {
      assert prefix.items[i] == items[i];
      assert items[i].0 != items[n].0;
      PasswordMappingValues(p, appKey, prefix, i);
    }
  }
}
