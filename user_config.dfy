/**
 * The per-user configuration: a document of documents, one per user, keyed by
 * the encoded login name. The login name is an input here rather than an
 * operating-system lookup.
 */
module UserConfig {
  import opened Wrappers
  import opened Json
  import opened BaseConfig
  import Utf8
  import Base64Url

  /** The one field whose values are stored encoded. */
  const EmailKey: string := "Email"

  /** The attributes inserted for a user seen for the first time. */
  const DefaultAttributes: Document := map[
    "Favorites" := Array([]),
    "Theme" := Str("normal"),
    EmailKey := Str(""),
    "Notifications" := Bool(false)
  ]

  /** `_encode_item`: URL-safe base64 of the UTF-8 bytes. */
  function EncodeItem(item: string): (r: string)
    ensures |r| == 4 * ((|Utf8.Encode(item)| + 2) / 3)
    ensures item != [] ==> |r| > |item|
  {
    Base64Url.Encode(Utf8.Encode(item))
  }

  /** `_decode_item`: None where Python raises (bad base64 or bad UTF-8). */
  function DecodeItem(item: string): (r: Option<string>)
    ensures r.Some? <==> Base64Url.Decode(item).Some? && Utf8.Decode(Base64Url.Decode(item).value).Some?
    ensures r.Some? ==> Utf8.Encode(r.value) == Base64Url.Decode(item).value
  {
    match Base64Url.Decode(item)
    case None => None
    case Some(bytes) =>
      if Utf8.Decode(bytes).Some? then Utf8.EncodeDecode(bytes); Utf8.Decode(bytes)
      else None
  }

  /** Decoding undoes encoding for every string. */
  lemma DecodeItemEncodeItem(s: string)
    ensures DecodeItem(EncodeItem(s)) == Some(s)
  {
    Base64Url.DecodeEncode(Utf8.Encode(s));
    Utf8.DecodeEncode(s);
  }

  /** Encoded items, user keys among them, use only the URL-safe alphabet and '=' padding. */
  lemma EncodeItemAlphabet(s: string)
    ensures forall i | 0 <= i < |EncodeItem(s)| :: Base64Url.IsSymbol(EncodeItem(s)[i]) || EncodeItem(s)[i] == '='
  {
    Base64Url.EncodeAlphabet(Utf8.Encode(s));
  }

  /** `self.config.get(self._user, {})`. */
  function Entry(doc: Document, user: string): Json {
    if user in doc then doc[user] else Object(map[])
  }

  /**
   * `get`: a field of the user's entry, or `fallback` when it is absent. A
   * non-empty stored e-mail is returned encoded once more.
   */
  function Lookup(doc: Document, user: string, key: string, fallback: Json): (r: Result<Json, Error>)
    ensures !Entry(doc, user).Object? ==> r == Failure(NotAMapping)
    ensures Entry(doc, user).Object? ==>
      var fields := Entry(doc, user).fields;
      if key == EmailKey && EmailKey in fields && Truthy(fields[EmailKey]) then
        r == (if fields[EmailKey].Str? then Success(Str(EncodeItem(fields[EmailKey].s))) else Failure(NotAString))
      else
        r == Success(if key in fields then fields[key] else fallback)
  {
    match Entry(doc, user)
    case Object(fields) =>
      if key == EmailKey && EmailKey in fields && Truthy(fields[EmailKey]) then
        match fields[EmailKey]
        case Str(s) => Success(Str(EncodeItem(s)))
        case _ => Failure(NotAString)
      else
        Success(if key in fields then fields[key] else fallback)
    case _ => Failure(NotAMapping)
  }

  /** `get` as evidently intended: a non-empty stored e-mail is decoded on the way out. */
  function LookupDecoded(doc: Document, user: string, key: string, fallback: Json): (r: Result<Json, Error>)
    ensures key != EmailKey ==> r == Lookup(doc, user, key, fallback)
    ensures r.Failure? && Entry(doc, user).Object? && key == EmailKey ==>
      && EmailKey in Entry(doc, user).fields
      && r.error == (if Entry(doc, user).fields[EmailKey].Str? then NotEncoded else NotAString)
  {
    match Entry(doc, user)
    case Object(fields) =>
      if key == EmailKey && EmailKey in fields && Truthy(fields[EmailKey]) then
        match fields[EmailKey]
        case Str(s) => (match DecodeItem(s) case Some(d) => Success(Str(d)) case None => Failure(NotEncoded))
        case _ => Failure(NotAString)
      else
        Success(if key in fields then fields[key] else fallback)
    case _ => Failure(NotAMapping)
  }

  /**
   * The value `set` stores for `key`: a non-empty e-mail is stored encoded,
   * in a form the item decoder takes back to the e-mail; anything else is
   * stored as given.
   */
  function StoredForm(key: string, value: Json): (r: Result<Json, Error>)
    ensures r.Failure? <==> key == EmailKey && Truthy(value) && !value.Str?
    ensures r.Success? && key == EmailKey && Truthy(value) ==>
      r.value.Str? && DecodeItem(r.value.s) == Some(value.s)
    ensures r.Success? && !(key == EmailKey && Truthy(value)) ==> r.value == value
  {
    if key == EmailKey && Truthy(value) then
      if value.Str? then DecodeItemEncodeItem(value.s); Success(Str(EncodeItem(value.s)))
      else Failure(NotAString)
    else
      Success(value)
  }

  /**
   * The document after `set`: the user's entry (created when missing) gets
   * `key`; nothing else changes. Fails as Python does when the e-mail is not
   * a string or the user's entry is not an object.
   */
  function Update(doc: Document, user: string, key: string, value: Json): (r: Result<Document, Error>)
    ensures r.Failure? <==>
      (key == EmailKey && Truthy(value) && !value.Str?) || !Entry(doc, user).Object?
    ensures r.Success? ==>
      && r.value.Keys == doc.Keys + {user}
      && (forall u | u in doc && u != user :: r.value[u] == doc[u])
      && r.value[user].Object?
      && r.value[user].fields.Keys == Entry(doc, user).fields.Keys + {key}
      && (forall f | f in Entry(doc, user).fields && f != key ::
            r.value[user].fields[f] == Entry(doc, user).fields[f])
      && r.value[user].fields[key] ==
           (if key == EmailKey && Truthy(value) then Str(EncodeItem(value.s)) else value)
  {
    match StoredForm(key, value)
    case Failure(e) => Failure(e)
    case Success(stored) =>
      match Entry(doc, user)
      case Object(fields) => Success(doc[user := Object(fields[key := stored])])
      case _ => Failure(NotAMapping)
  }

  /** The constructor's change: default attributes for a user not yet present. */
  function WithUser(doc: Document, user: string): (r: Document)
    ensures user in r
    ensures user in doc ==> r == doc
    ensures user !in doc ==> r == doc[user := Object(DefaultAttributes)]
  {
    if user in doc then doc else doc[user := Object(DefaultAttributes)]
  }

  /** Constructing the store twice for one user changes nothing the second time. */
  lemma WithUserIdempotent(doc: Document, user: string)
    ensures WithUser(WithUser(doc, user), user) == WithUser(doc, user)
  {
  }

  /** `set(k, v)` then `get(k)` gives back `v` for every field except a non-empty e-mail. */
  lemma LookupAfterUpdate(doc: Document, user: string, key: string, value: Json, fallback: Json)
    requires Update(doc, user, key, value).Success?
    requires !(key == EmailKey && Truthy(value))
    ensures Lookup(Update(doc, user, key, value).value, user, key, fallback) == Success(value)
  {
  }

  /** `set` and `get` on one user's entry leave every other user's view as it was. */
  lemma LookupOtherUser(doc: Document, user: string, other: string, key: string, value: Json,
                        k: string, fallback: Json)
    requires Update(doc, user, key, value).Success?
    requires other != user
    ensures Lookup(Update(doc, user, key, value).value, other, k, fallback) == Lookup(doc, other, k, fallback)
  {
  }

  /** Setting the same field to the same value twice is the same as setting it once. */
  lemma UpdateIdempotent(doc: Document, user: string, key: string, value: Json)
    requires Update(doc, user, key, value).Success?
    ensures Update(Update(doc, user, key, value).value, user, key, value) == Update(doc, user, key, value)
  {
    var once := Update(doc, user, key, value).value;
    var fields := once[user].fields;
    var stored := StoredForm(key, value).value;
    assert fields[key] == stored;
    assert fields[key := stored] == fields;
    assert once[user := Object(fields)] == once;
  }

  /**
   * As written, `set("Email", s)` then `get("Email")` returns `s` encoded
   * twice, which is never `s` itself.
   */
  lemma LookupEmailAfterUpdate(doc: Document, user: string, s: string, fallback: Json)
    requires s != ""
    requires Entry(doc, user).Object?
    ensures Update(doc, user, EmailKey, Str(s)).Success?
    ensures var after := Update(doc, user, EmailKey, Str(s)).value;
      && Lookup(after, user, EmailKey, fallback) == Success(Str(EncodeItem(EncodeItem(s))))
      && Lookup(after, user, EmailKey, fallback) != Success(Str(s))
  {
  }

  /** With decoding on read, `set("Email", s)` then `get("Email")` returns `s`. */
  lemma LookupDecodedEmailAfterUpdate(doc: Document, user: string, s: string, fallback: Json)
    requires s != ""
    requires Entry(doc, user).Object?
    ensures Update(doc, user, EmailKey, Str(s)).Success?
    ensures LookupDecoded(Update(doc, user, EmailKey, Str(s)).value, user, EmailKey, fallback) == Success(Str(s))
  {
    DecodeItemEncodeItem(s);
  }

  class UserConfigManager {
    /** The underlying store, created with an empty default document. */
    const file: BaseConfigManager
    /** The encoded login name, the key of this user's entry. */
    const user: string

    /** `__init__`: load or initialise, then add this user's entry if it is missing and persist. */
    constructor (fs: FileSystem, path: Path, login: string, loadOutcome: WriteOutcome, insertOutcome: WriteOutcome)
      requires path in fs.files ==> fs.files[path].Parsed?
      modifies fs
      ensures fresh(file) && file.fs == fs && file.path == path && file.defaults == map[]
      ensures user == EncodeItem(login)
      ensures path in old(fs.files) ==> file.config == WithUser(old(fs.files)[path].doc, user)
      ensures path !in old(fs.files) ==> file.config == WithUser(map[], user)
      ensures path in old(fs.files) && user in old(fs.files)[path].doc ==> fs.files == old(fs.files)
      ensures path in old(fs.files) && user !in old(fs.files)[path].doc ==>
        fs.files == Written(old(fs.files), path, file.config, insertOutcome)
      ensures path !in old(fs.files) ==>
        fs.files == Written(Written(old(fs.files), path, map[], loadOutcome), path, file.config, insertOutcome)
    {
      file := new BaseConfigManager(fs, path, map[], loadOutcome);
      user := EncodeItem(login);
      new;
      if user !in file.config {
        file.config := file.config[user := Object(DefaultAttributes)];
        var saved := file.Save(false, insertOutcome);
      }
    }

    /** `set`: store `value` (encoded for a non-empty e-mail) in this user's entry, then persist. */
    method Set(key: string, value: Json, outcome: WriteOutcome) returns (r: Result<bool, Error>)
      modifies file, file.fs
      ensures var next := Update(old(file.config), user, key, value);
        if next.Success? then
          && file.config == next.value
          && r == Success(outcome == Completed)
          && file.fs.files == Written(old(file.fs.files), file.path, next.value, outcome)
        else
          && r == Failure(next.error)
          && file.config == old(file.config)
          && file.fs.files == old(file.fs.files)
    {
      var userData := if user in file.config then file.config[user] else Object(map[]);
      var stored := value;
      if key == EmailKey && Truthy(value) {
        if !value.Str? {
          return Failure(NotAString);
        }
        stored := Str(EncodeItem(value.s));
      }
      if !userData.Object? {
        return Failure(NotAMapping);
      }
      file.config := file.config[user := Object(userData.fields[key := stored])];
      var ok := file.Save(false, outcome);
      r := Success(ok);
    }
  }
}
