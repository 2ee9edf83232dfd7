/**
 * The load-or-initialise and persist lifecycle shared by both configuration
 * stores (`BaseConfigManager`). The disk is a map from resolved paths to what
 * each file holds; whether a write succeeds is an input of every operation
 * that writes.
 */
module BaseConfig {
  import opened Wrappers
  import opened Json

  /** A resolved configuration file path; how it is resolved is not modelled. */
  type Path = string

  /** What a file holds: a JSON object, or text that `json.load` rejects. */
  datatype FileContents = Parsed(doc: Document) | Malformed

  /**
   * How a write ends: completed; refused by `open` before the file was
   * touched; or aborted after `open(path, "w")` truncated the file.
   */
  datatype WriteOutcome = Completed | OpenFailed | Interrupted

  /** The exceptions the stores let escape. */
  datatype Error =
    | KeyMissing   // KeyError from dict.pop
    | NotAMapping  // AttributeError/TypeError: a user's entry is not a JSON object
    | NotAString   // AttributeError: a non-string value reached the item encoder
    | NotEncoded   // binascii.Error/UnicodeDecodeError from the item decoder

  class FileSystem {
    var files: map<Path, FileContents>

    constructor (files: map<Path, FileContents>)
      ensures this.files == files
    {
      this.files := files;
    }
  }

  /** The disk after writing `doc` to `path` with the given outcome. */
  function Written(files: map<Path, FileContents>, path: Path, doc: Document, outcome: WriteOutcome)
    : (r: map<Path, FileContents>)
    ensures outcome == Completed ==> path in r && r[path] == Parsed(doc)
    ensures outcome == Interrupted ==> path in r && r[path] == Malformed
    ensures outcome == OpenFailed ==> r == files
    ensures r.Keys <= files.Keys + {path}
    ensures forall p | p in files && p != path :: p in r && r[p] == files[p]
  {
    match outcome
    case Completed => files[path := Parsed(doc)]
    case OpenFailed => files
    case Interrupted => files[path := Malformed]
  }

  class BaseConfigManager {
    const fs: FileSystem
    const path: Path
    const defaults: Document
    var config: Document

    /** `__init__`: adopt the stored document, or write the defaults and adopt a copy. */
    constructor (fs: FileSystem, path: Path, defaults: Document, outcome: WriteOutcome)
      requires path in fs.files ==> fs.files[path].Parsed?
      modifies fs
      ensures this.fs == fs && this.path == path && this.defaults == defaults
      ensures path in old(fs.files) ==> config == old(fs.files)[path].doc && fs.files == old(fs.files)
      ensures path !in old(fs.files) ==>
        config == defaults && fs.files == Written(old(fs.files), path, defaults, outcome)
    {
      this.fs := fs;
      this.path := path;
      this.defaults := defaults;
      new;
      config := Load(outcome);
    }

    /** `_load_config`: the document to adopt; writes the defaults when no file exists. */
    method Load(outcome: WriteOutcome) returns (doc: Document)
      requires path in fs.files ==> fs.files[path].Parsed?
      modifies fs
      ensures path in old(fs.files) ==> doc == old(fs.files)[path].doc && fs.files == old(fs.files)
      ensures path !in old(fs.files) ==>
        doc == defaults && fs.files == Written(old(fs.files), path, defaults, outcome)
    {
      if path in fs.files {
        doc := fs.files[path].doc;
      } else {
        var saved := Save(true, outcome);
        doc := defaults;
      }
    }

    /**
     * `_save_config`: overwrite the file with the document (or with the
     * defaults) and report whether the write completed. The in-memory
     * document is never changed.
     */
    method Save(useDefaults: bool, outcome: WriteOutcome) returns (ok: bool)
      modifies fs
      ensures ok <==> outcome == Completed
      ensures fs.files == Written(old(fs.files), path, if useDefaults then defaults else config, outcome)
      ensures ok ==> fs.files[path] == Parsed(if useDefaults then defaults else config)
    {
      fs.files := Written(fs.files, path, if useDefaults then defaults else config, outcome);
      ok := outcome == Completed;
    }

    /** `remove`: pop `key` (KeyError when absent, nothing changes), then persist. */
    method Remove(key: string, outcome: WriteOutcome) returns (r: Result<bool, Error>)
      modifies this, fs
      ensures key !in old(config) ==>
        r == Failure(KeyMissing) && config == old(config) && fs.files == old(fs.files)
      ensures key in old(config) ==>
        && config == old(config) - {key}
        && r == Success(outcome == Completed)
        && fs.files == Written(old(fs.files), path, config, outcome)
    {
      if key !in config {
        return Failure(KeyMissing);
      }
      config := config - {key};
      var ok := Save(false, outcome);
      r := Success(ok);
    }
  }
}
