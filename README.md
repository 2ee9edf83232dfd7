# CoConfig configuration stores, modelled in Dafny

`config_manager/config_manager.py` is a small persistent key-value configuration
layer. A base store (`BaseConfigManager`) adopts the JSON document stored at its
path. If there is no file yet, it writes a default document and adopts a copy of
it. It persists the whole document after every change and reports the outcome of
each write as a boolean.

There are two specialisations:

- `GlobalConfigManager`: a flat document with fixed operational defaults.
- `UserConfigManager`: a document of per-user documents, keyed by the login name
  encoded with URL-safe base64. A user seen for the first time gets default
  attributes. The `Email` field is base64url-encoded when written, and encoded
  once more when read.

Layout of the model:

| file | module | contents |
|---|---|---|
| `wrappers.dfy` | `Wrappers` | `Option`, `Result` |
| `json.dfy` | `Json` | JSON values, documents, Python truthiness |
| `utf8.dfy` | `Utf8` | UTF-8 encoding and strict decoding (RFC 3629) |
| `base64url.dfy` | `Base64Url` | base64 with the URL-safe alphabet (RFC 4648, sections 4 and 5) |
| `base_config.dfy` | `BaseConfig` | the disk (`FileSystem`), write outcomes, `BaseConfigManager` |
| `global_config.dfy` | `GlobalConfig` | `GlobalConfigManager` and its defaults |
| `user_config.dfy` | `UserConfig` | item encoding, the per-user document functions, `UserConfigManager` |
| `scenarios.dfy` | `Scenarios` | clients that run the documented lifecycles through the contracts |

How the environment is modelled:

- **The disk.** The disk is a `FileSystem` object whose `files` map takes each
  resolved path to `Parsed(document)` or `Malformed`.
- **Writes.** Every operation that writes takes a `WriteOutcome`:
  - `Completed`: the file now holds the document.
  - `OpenFailed`: the file is untouched.
  - `Interrupted`: `open(path, "w")` had already truncated the file, so it is
    left `Malformed`.
- **Exceptions.** Exceptions that escape (`KeyError` from `remove`, and the
  `AttributeError`/`TypeError` cases of the user store) are `Failure` results.
  When one is raised, nothing changes.
- **Inheritance.** Inheritance becomes composition. Each specialised manager
  holds its `BaseConfigManager` as `file`, and `remove` is called on that.
- **`get`.** `get` only reads the document. `GlobalConfigManager.Get` is a
  function that reads the store. The user store's `get` is `UserConfig.Lookup`,
  a function of the document and the encoded user key.

The user store's `get` and `set` can also fail without any write. `set("Email", v)`
with a truthy non-string `v` raises, and so does any access when the user's entry
is not a JSON object. The model returns `Failure` in those cases.

## Model

| member | source | states |
|---|---|---|
| `Utf8.EncodeChar` | config_manager/config_manager.py:92 | a character takes one to four bytes, and exactly one when it is ASCII |
| `Utf8.Encode` | config_manager/config_manager.py:92 | the UTF-8 form of a string has between one and four bytes per character |
| `Utf8.DecodeEncode` | config_manager/config_manager.py:90-96 | decoding the UTF-8 form of any string gives the string back |
| `Utf8.EncodeDecode` | config_manager/config_manager.py:94-96 | the strict decoder accepts only real encodings: what it returns encodes back to its input |
| `Utf8.Decode` | config_manager/config_manager.py:96 | `bytes.decode()`, strict: a decoded text has between one and four bytes per character; its round trips are `Utf8.DecodeEncode` and `Utf8.EncodeDecode` |
| `Base64Url.Encode` | config_manager/config_manager.py:92 | n bytes encode to 4*ceil(n/3) characters |
| `Base64Url.EncodeAlphabet` | config_manager/config_manager.py:92 | the encoding uses only A-Z a-z 0-9 - _, followed by exactly (3 - n mod 3) mod 3 '=' |
| `Base64Url.DecodeEncode` | config_manager/config_manager.py:90-96 | decoding the encoding of any byte string gives it back |
| `Base64Url.Decode` | config_manager/config_manager.py:96 | `urlsafe_b64decode`, stricter than Python (see Left out): a decoded text is exactly as long as the encoding of its result; its round trip is `Base64Url.DecodeEncode` |
| `BaseConfig.Written` | config_manager/config_manager.py:26-33 | a completed write leaves the document at the path, an interrupted one a malformed file, a refused one nothing changed; other paths are untouched |
| `Json.Truthy` | config_manager/config_manager.py:77-83 | Python's truth test on a JSON value (`if value:`); no contract of its own, used by `Lookup`, `StoredForm` and `Update` |
| `BaseConfig.BaseConfigManager.constructor` | config_manager/config_manager.py:6-24 | with a file at the path, the document is the stored one and the disk is unchanged; without one, the document is the defaults and the defaults were written |
| `BaseConfig.BaseConfigManager.Load` | config_manager/config_manager.py:18-24 | returns the stored document, or writes the defaults and returns them when there is no file |
| `BaseConfig.BaseConfigManager.Save` | config_manager/config_manager.py:26-33 | returns true exactly when the write completed, and then the file holds the document (or the defaults); the in-memory document never changes |
| `BaseConfig.BaseConfigManager.Remove` | config_manager/config_manager.py:35-37 | an absent key raises KeyError and changes nothing; a present key is removed, every other entry stays, and the result is that of persisting the new document |
| `GlobalConfig.GlobalConfigManager.constructor` | config_manager/config_manager.py:40-50 | a fresh path gets the fixed defaults on disk and in memory; an existing file is adopted unchanged |
| `GlobalConfig.GlobalConfigManager.Get` | config_manager/config_manager.py:52-53 | returns the stored value, and the fallback exactly when the key is absent |
| `GlobalConfig.GlobalConfigManager.Set` | config_manager/config_manager.py:55-57 | afterwards get(key) is the new value, every other key reads as before, and the file holds the new document exactly when the write completed |
| `GlobalConfig.Defaults` | config_manager/config_manager.py:41-47 | the five default settings with the program's values; no contract of its own, used by the constructor's ensures |
| `UserConfig.EncodeItem` | config_manager/config_manager.py:90-92 | the encoding has 4*ceil(n/3) characters for n UTF-8 bytes and is longer than any non-empty input |
| `UserConfig.DecodeItem` | config_manager/config_manager.py:94-96 | succeeds exactly when the text is valid base64url of valid UTF-8, and the result's UTF-8 bytes are the decoded bytes |
| `UserConfig.DecodeItemEncodeItem` | config_manager/config_manager.py:90-96 | decoding the encoding of any string gives the string back |
| `UserConfig.EncodeItemAlphabet` | config_manager/config_manager.py:70 | encoded items, the user key among them, consist of URL-safe symbols and '=' only |
| `UserConfig.DefaultAttributes` | config_manager/config_manager.py:61-66 | the four default user attributes with the program's values; no contract of its own, used by `WithUser` |
| `UserConfig.Entry` | config_manager/config_manager.py:76-82 | `self.config.get(self._user, {})`: the user's entry, or an empty object; no contract of its own, used by `Lookup` and `Update` |
| `UserConfig.Lookup` | config_manager/config_manager.py:75-79 | the user's field or the fallback; a non-empty stored e-mail is returned encoded again; fails when the entry is not an object or the stored e-mail is not a string |
| `UserConfig.LookupDecoded` | config_manager/config_manager.py:75-79 | the corrected read: same as Lookup for every other key; a failed e-mail read is NotEncoded when the stored e-mail is text that does not decode, NotAString when it is not text |
| `UserConfig.StoredForm` | config_manager/config_manager.py:83-86 | fails exactly for a truthy non-string e-mail; a truthy e-mail is stored in a form the item decoder takes back to it; any other value is stored as given |
| `UserConfig.Update` | config_manager/config_manager.py:81-88 | the user's entry (created when missing) gets the key, encoded for a non-empty e-mail and verbatim otherwise; other users and other fields are unchanged; fails exactly for a truthy non-string e-mail or a non-object entry |
| `UserConfig.WithUser` | config_manager/config_manager.py:71-73 | the default attributes are inserted only when the user key is absent; an existing entry is untouched |
| `UserConfig.WithUserIdempotent` | config_manager/config_manager.py:68-73 | constructing twice for one user equals constructing once |
| `UserConfig.LookupAfterUpdate` | config_manager/config_manager.py:75-88 | set(k, v) then get(k) returns v for every key except a non-empty e-mail |
| `UserConfig.LookupOtherUser` | config_manager/config_manager.py:75-88 | set for one user leaves every read of every other user as it was |
| `UserConfig.UpdateIdempotent` | config_manager/config_manager.py:81-88 | setting the same value twice equals setting it once |
| `UserConfig.LookupEmailAfterUpdate` | config_manager/config_manager.py:77-84 | as written, set("Email", s) then get("Email") returns s encoded twice, which never equals s |
| `UserConfig.LookupDecodedEmailAfterUpdate` | config_manager/config_manager.py:77-96 | with decoding on read, set("Email", s) then get("Email") returns s |
| `UserConfig.UserConfigManager.constructor` | config_manager/config_manager.py:68-73 | the key is the encoded login; the document is the loaded one with this user's defaults added if missing; the disk is written only when something was added or no file existed |
| `UserConfig.UserConfigManager.Set` | config_manager/config_manager.py:81-88 | the document becomes Update's result and is persisted, returning the write's outcome; on failure neither the document nor the disk changes |
| `Scenarios.GlobalFirstUse` | config_manager/config_manager.py:40-57 | on a path with no file, UPDATING starts false; after set("UPDATING", true) both get and the file hold true |
| `Scenarios.RemoveTwice` | config_manager/config_manager.py:35-37 | removing a present key succeeds; removing it again raises KeyError |
| `Scenarios.ReloadAfterSet` | config_manager/config_manager.py:18-29 | a store constructed on the path after a completed set loads exactly the persisted document |
| `Scenarios.UserConstructedTwice` | config_manager/config_manager.py:68-73 | the second construction for the same user gives the same key and document and writes nothing |
| `Scenarios.EmailReadBack` | config_manager/config_manager.py:75-88 | through the store: after set("Email", s), get returns s encoded twice and the decoding read returns s |

## Findings

| source | as written | input that shows it | evidently intended | confidence | as-written member | corrected member |
|---|---|---|---|---|---|---|
| config_manager/config_manager.py:77-78 | `get("Email")` applies `_encode_item` to the stored e-mail, which `set` already encoded | `set("Email", "a@b.com")`, then `get("Email")`: the result is `"a@b.com"` encoded twice, longer than the input and never equal to it | decode on read with `_decode_item`, so that `get` returns what `set` was given | not executed | `UserConfig.LookupEmailAfterUpdate` (about `UserConfig.Lookup`) | `UserConfig.LookupDecodedEmailAfterUpdate` (about `UserConfig.LookupDecoded`) |

The stores keep the program's behaviour. `UserConfig.Lookup` is `get` as
written, and `UserConfig.LookupDecoded` is the corrected read. `Scenarios.EmailReadBack`
shows both through a `UserConfigManager`.

## Left out

- Path resolution (`_get_config_path`, lines 11-16) depends on `sys.frozen`, `sys.executable` and `__file__`. Every constructor takes the resolved path as an opaque parameter, so the default file names do not appear.
- Real file I/O, JSON text, parsing and the four-space pretty-printing are not modelled. A file holds either a parsed document or malformed text, and whether a write completes is an input.
- `BaseConfig.BaseConfigManager.constructor`: requires that a file present at the path is not malformed. Python raises from `json.load` there, and that raise is not modelled as a result.
- A top-level JSON array in the file (which `json.load` would return) is not modelled. Documents are JSON objects.
- JSON numbers are integers. Floating point is not modelled.
- `getpass.getuser()` (line 70) is an operating-system lookup. The login name is a constructor parameter.
- The `print` diagnostics (lines 32 and 36) are console output only.
- `_save_config` also catches errors raised while serialising values that are not JSON. Every modelled value is JSON, so only I/O outcomes remain.
- The shallow copies of the default dictionaries share mutable lists in Python: line 24 shares `MACHINES` and `SUBFOLDERS` of the global defaults, line 72 shares `Favorites` of the user defaults. Defaults here are immutable values.
- The commented-out `ConfigManager` factory (lines 99-106) is dead code.
- `Base64Url.Decode`: stricter than Python's non-validating `urlsafe_b64decode`. It rejects characters outside the URL-safe alphabet, where Python discards them and also accepts `+` and `/`. It also rejects padding anywhere but at the end. Like Python, it ignores non-zero trailing bits. The decoder is never called on the program's own paths.
- `Utf8.Encode`: Dafny characters are Unicode scalar values. Python strings holding lone surrogates, on which `str.encode()` raises, are not modelled.
- Concurrent writers to one file are not modelled. The program has no locking.
