/**
 * Clients of the stores that follow their documented lifecycles using only
 * the stores' contracts.
 */
module Scenarios {
  import opened Wrappers
  import opened Json
  import opened BaseConfig
  import opened GlobalConfig
  import opened UserConfig

  /**
   * A global store on a path with no file starts from the defaults
   * (`UPDATING` reads false); after `set("UPDATING", true)` both `get` and
   * the file hold true.
   */
  method GlobalFirstUse(fs: FileSystem, path: Path) returns (g: GlobalConfigManager, initial: Json)
    requires path !in fs.files
    modifies fs
    ensures initial == Bool(false)
    ensures fresh(g.file) && g.file.fs == fs
    ensures g.Get("UPDATING", Null) == Bool(true)
    ensures path in fs.files && fs.files[path] == Parsed(g.file.config)
    ensures g.file.config == Defaults["UPDATING" := Bool(true)]
  {
    g := new GlobalConfigManager(fs, path, Completed);
    initial := g.Get("UPDATING", Null);
    var ok := g.Set("UPDATING", Bool(true), Completed);
  }

  /** `remove(k)` of a present key succeeds; removing it again raises KeyError. */
  method RemoveTwice(m: BaseConfigManager, key: string, outcome: WriteOutcome)
    returns (first: Result<bool, Error>, second: Result<bool, Error>)
    requires key in m.config
    modifies m, m.fs
    ensures first == Success(outcome == Completed)
    ensures second == Failure(KeyMissing)
    ensures key !in m.config && m.config == old(m.config) - {key}
    ensures outcome == Completed ==> m.path in m.fs.files && m.fs.files[m.path] == Parsed(m.config)
  {
    first := m.Remove(key, outcome);
    second := m.Remove(key, outcome);
  }

  /** A document persisted by `set` is what a fresh store on the same path loads. */
  method ReloadAfterSet(g: GlobalConfigManager, key: string, value: Json) returns (h: GlobalConfigManager)
    modifies g.file, g.file.fs
    ensures h.file.config == g.file.config
    ensures h.Get(key, Null) == value
  {
    var ok := g.Set(key, value, Completed);
    h := new GlobalConfigManager(g.file.fs, g.file.path, Completed);
  }

  /**
   * Constructing the user store twice for one user, with every write
   * completing, gives the same key and document and the second construction
   * writes nothing.
   */
  method UserConstructedTwice(fs: FileSystem, path: Path, login: string)
    returns (a: UserConfigManager, b: UserConfigManager)
    requires path in fs.files ==> fs.files[path].Parsed?
    modifies fs
    ensures a.user == b.user == EncodeItem(login)
    ensures b.file.config == a.file.config
    ensures a.user in a.file.config
    ensures fs.files ==
      if path in old(fs.files) && EncodeItem(login) in old(fs.files)[path].doc then old(fs.files)
      else old(fs.files)[path := Parsed(a.file.config)]
  {
    a := new UserConfigManager(fs, path, login, Completed, Completed);
    assert fs.files[path] == Parsed(a.file.config);
    b := new UserConfigManager(fs, path, login, Completed, Completed);
  }

  /**
   * `set("Email", s)` then `get("Email")` returns `s` encoded twice; reading
   * with decoding returns `s`.
   */
  method EmailReadBack(m: UserConfigManager, s: string, outcome: WriteOutcome)
    returns (r: Result<bool, Error>)
    requires s != ""
    requires Entry(m.file.config, m.user).Object?
    modifies m.file, m.file.fs
    ensures r == Success(outcome == Completed)
    ensures Lookup(m.file.config, m.user, EmailKey, Null) == Success(Str(EncodeItem(EncodeItem(s))))
    ensures LookupDecoded(m.file.config, m.user, EmailKey, Null) == Success(Str(s))
  {
    LookupEmailAfterUpdate(m.file.config, m.user, s, Null);
    LookupDecodedEmailAfterUpdate(m.file.config, m.user, s, Null);
    r := m.Set(EmailKey, Str(s), outcome);
  }
}
