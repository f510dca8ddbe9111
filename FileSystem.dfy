/** The part of the filesystem the scripts touch: one directory at a time,
    seen as the set of names it holds. The order in which os.listdir returns
    those names is platform-dependent, so a listing is an input sequence that
    enumerates the set. */
module FileSystem {

  /** A path built by os.path.join(dir, name) from a directory and a bare name. */
  datatype Path = Path(dir: string, name: string)

  /** What os.path.exists / os.path.isdir report about a path. */
  datatype PathKind = Missing | RegularFile | Directory

  /** `listing` holds every name of `names` exactly once (an os.listdir result). */
  predicate Enumerates(listing: seq<string>, names: set<string>) {
    (forall n :: n in listing ==> n in names) &&
    (forall n :: n in names ==> n in listing) &&
    (forall i, j :: 0 <= i < j < |listing| ==> listing[i] != listing[j])
  }

  /** os.rename(from, to) within a folder holding `entries` succeeds: the
      source name is present and the target name is not yet taken. Names are
      compared exactly (case-sensitively). */
  predicate CanRename(entries: set<string>, from: string, to: string) {
    from in entries && to !in entries
  }

  /** A directory whose set of entries os.rename and file creation change in place. */
  class Folder {
    const path: string
    var kind: PathKind
    var entries: set<string>

    constructor (path: string, kind: PathKind, entries: set<string>)
      ensures this.path == path && this.kind == kind && this.entries == entries
    {
      this.path := path;
      this.kind := kind;
      this.entries := entries;
    }

    /** os.rename within this folder. It fails (raises) when the source name is
        absent or the target name is already taken, as it does on Windows
        (up to case, which the model does not fold); a failed rename changes
        nothing. */
    method Rename(from: string, to: string) returns (ok: bool)
      modifies this
      ensures kind == old(kind)
      ensures ok == CanRename(old(entries), from, to)
      ensures entries == if ok then old(entries) - {from} + {to} else old(entries)
    {
      ok := CanRename(entries, from, to);
      if ok {
        entries := entries - {from} + {to};
      }
    }

    /** Creating (or overwriting) a file of this folder. */
    method Create(name: string)
      modifies this
      ensures kind == old(kind)
      ensures entries == old(entries) + {name}
    {
      entries := entries + {name};
    }
  }
}
