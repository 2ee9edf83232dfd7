/** The process-wide configuration: a flat document with fixed defaults. */
module GlobalConfig {
  import opened Json
  import opened BaseConfig

  /** The document written on first use. */
  const Defaults: Document := map[
    "PRODUCTION_PATH" := Str("/"),
    "MACHINES" := Array([Str("4.02"), Str("4.03"), Str("4.61"), Str("4.62"),
                         Str("4.11"), Str("5.25"), Str("5.26"), Str("5.27")]),
    "SUBFOLDERS" := Array([Str("Pressendaten"), Str("SSG-PBS"), Str("SSG-PBS-CSV"), Str("TagesCSV")]),
    "UPDATING" := Bool(false),
    "LAST_UPDATE" := Str("")
  ]

  class GlobalConfigManager {
    /** The underlying store; `remove` is called on it directly. */
    const file: BaseConfigManager

    constructor (fs: FileSystem, path: Path, outcome: WriteOutcome)
      requires path in fs.files ==> fs.files[path].Parsed?
      modifies fs
      ensures fresh(file) && file.fs == fs && file.path == path && file.defaults == Defaults
      ensures path in old(fs.files) ==> file.config == old(fs.files)[path].doc && fs.files == old(fs.files)
      ensures path !in old(fs.files) ==>
        file.config == Defaults && fs.files == Written(old(fs.files), path, Defaults, outcome)
    {
      file := new BaseConfigManager(fs, path, Defaults, outcome);
    }

    /** `get`: the value stored under `key`, or `fallback` exactly when there is none. */
    function Get(key: string, fallback: Json): (v: Json)
      reads file
      ensures key in file.config ==> v == file.config[key]
      ensures key !in file.config ==> v == fallback
    {
      if key in file.config then file.config[key] else fallback
    }

    /** `set`: insert or overwrite `key`, then persist the whole document. */
    method Set(key: string, value: Json, outcome: WriteOutcome) returns (ok: bool)
      modifies file, file.fs
      ensures file.config == old(file.config)[key := value]
      ensures forall d :: Get(key, d) == value
      ensures forall k, d | k != key :: Get(k, d) == old(Get(k, d))
      ensures ok <==> outcome == Completed
      ensures file.fs.files == Written(old(file.fs.files), file.path, file.config, outcome)
    {
      file.config := file.config[key := value];
      ok := file.Save(false, outcome);
    }
  }
}
