// The watched directory as the renaming engine sees it: a map from file name
// to what the engine can observe of the file.
module FileSystem {

  /** Creation time (`os.path.getctime`), size in bytes, and whether the file is
      held by another process so that renaming it fails. */
  datatype FileRecord = FileRecord(ctime: int, size: nat, locked: bool)

  type Files = map<string, FileRecord>

  /** `Path.rename` succeeds when the source exists and is not locked and the
      destination name is free; otherwise it raises `OSError`. */
  predicate CanRename(files: Files, src: string, dst: string) {
    src in files && dst !in files && !files[src].locked
  }

  /** The directory after renaming src to dst. */
  function Renamed(files: Files, src: string, dst: string): Files
    requires src in files && dst !in files
  {
    (files - {src})[dst := files[src]]
  }

  lemma RenamedKeys(files: Files, src: string, dst: string)
    requires src in files && dst !in files
    ensures Renamed(files, src, dst).Keys == files.Keys - {src} + {dst}
  {
  }

  /** Renaming moves the record of src to dst and leaves every other file as
      it was. */
  lemma RenamedMoves(files: Files, src: string, dst: string)
    requires src in files && dst !in files
    ensures Renamed(files, src, dst).Keys == files.Keys - {src} + {dst}
    ensures Renamed(files, src, dst)[dst] == files[src]
    ensures forall n :: n in files && n != src ==> Renamed(files, src, dst)[n] == files[n]
  {
  }

  class Directory {
    var files: Files

    constructor (initial: Files)
      ensures files == initial
    {
      files := initial;
    }

    /** `Path.exists`. */
    function Exists(name: string): bool
      reads this
    {
      name in files
    }

    /** `Path.rename(target)`: `ok` is false exactly when the call would raise,
        and then nothing changes. */
    method Rename(src: string, dst: string) returns (ok: bool)
      modifies this
      ensures ok <==> CanRename(old(files), src, dst)
      ensures files == if ok then Renamed(old(files), src, dst) else old(files)
    {
      if src in files && dst !in files && !files[src].locked {
        files := (files - {src})[dst := files[src]];
        ok := true;
      } else {
        ok := false;
      }
    }
  }
}
