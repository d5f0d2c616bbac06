/** `TulpOutputFileWriter.write_to_file` of the legacy generator: move an
    existing target out of the way to the first free `{root}.backup-{n}{ext}`
    name, then open the target for writing.

    The path is used as given: the filesystem is looked up with the very
    string the caller passed, without resolving it against the working
    directory. */
module LegacyWriter {
  import opened Text
  import opened Files
  import opened OutputHandler

  /** `str(e)` for the `FileNotFoundError` of `open(path, "w")`: the
      file name is written with `repr`. */
  function NotFoundMessage(path: string): string {
    "[Errno 2] No such file or directory: " + PyRepr(path)
  }

  /** `str(e)` for the `NotADirectoryError` of `open(path, "w")`. */
  function NotADirectoryMessage(path: string): string {
    "[Errno 20] Not a directory: " + PyRepr(path)
  }

  /** A name holding a single quote is written between double quotes; a
      plain name between single quotes. */
  lemma MessageExamples(quoted: string, plain: string)
    requires quoted == "x/it's.txt" && plain == "f/out.txt"
    ensures NotFoundMessage(quoted) == "[Errno 2] No such file or directory: \"x/it's.txt\""
    ensures NotADirectoryMessage(plain) == "[Errno 20] Not a directory: 'f/out.txt'"
  {
    ReprApostrophe(quoted);
    assert "\"" + quoted + "\"" == "\"x/it's.txt\"";
    ReprPlain(plain);
    assert "'" + plain + "'" == "'f/out.txt'";
  }

  /** What a failed `open(path, "w")` reports: a directory on the way that
      is a file gives `NotADirectoryError`, a missing one
      `FileNotFoundError`. */
  function OpenError(entries: map<string, Entry>, path: string): string {
    if Blocked(entries, DirName(path)) then NotADirectoryMessage(path) else NotFoundMessage(path)
  }

  /** `open(path, "w")` succeeds: the name is not empty and its directory
      exists. The current directory (written "" or "."), its parent ("..")
      and the root always do. */
  predicate Opens(entries: map<string, Entry>, path: string) {
    var parent := DirName(path);
    && path != []
    && (|| parent == [] || parent == "." || parent == ".." || AllChar(parent, '/')
        || (parent in entries && entries[parent].Dir?))
  }

  /** The filesystem after `os.rename(path, backup)`. */
  function Renamed(entries: map<string, Entry>, path: string, backup: string): map<string, Entry>
    requires path in entries
  {
    (entries - {path})[backup := entries[path]]
  }

  /** The outcome of opening `path` and writing `content` on `entries`. */
  ghost predicate OpenEffect(entries: map<string, Entry>, path: string, content: string,
                             ok: bool, message: string, after: map<string, Entry>) {
    if Opens(entries, path) then ok && message == path && after == entries[path := File(content)]
    else !ok && message == OpenError(entries, path) && after == entries
  }

  /** What `write_to_file(path, content)` does: an existing target is first
      renamed to its first free backup name; then the target is opened and
      written, or the error of `open` is returned. */
  ghost predicate LegacyWriteEffect(before: map<string, Entry>, path: string, content: string,
                                    ok: bool, message: string, after: map<string, Entry>) {
    if path in before then
      exists b {:trigger IsLeastFreeBackup(before.Keys, path, b)} ::
        && IsLeastFreeBackup(before.Keys, path, b)
        && OpenEffect(Renamed(before, path, b), path, content, ok, message, after)
    else OpenEffect(before, path, content, ok, message, after)
  }

  /** The backup-name loop: starting from the target itself, count up until
      a name is free. It runs at least once because the target exists, and
      it ends because each name it passes is a distinct existing path. */
  method LegacyBackupName(fs: FileSystem, path: string) returns (counter: nat, backup: string)
    requires fs.Exists(path)
    ensures counter >= 1 && backup == BackupPath(path, counter)
    ensures IsLeastFreeBackup(fs.entries.Keys, path, backup)
  {
    counter := 0;
    backup := path;
    ghost var tried: set<string> := {};
    while fs.Exists(backup)
      invariant counter == 0 ==> backup == path && tried == {}
      invariant counter >= 1 ==> backup == BackupPath(path, counter)
      invariant forall k | 1 <= k < counter :: BackupPath(path, k) in fs.entries
      invariant tried <= fs.entries.Keys && |tried| == counter
      invariant forall n: nat | n >= counter && n >= 1 :: BackupPath(path, n) !in tried
      decreases |fs.entries.Keys| - |tried|
    {
      forall n: nat | n >= counter + 1
        ensures BackupPath(path, n) != backup
      {
        if counter == 0 {
          BackupIsNotOriginal(path, n);
        } else {
          BackupPathInjective(path, n, counter);
        }
      }
      SubsetCardinality(tried + {backup}, fs.entries.Keys);
      tried := tried + {backup};
      counter := counter + 1;
      backup := BackupPath(path, counter);
    }
    assert IsLeastFreeBackup(fs.entries.Keys, path, BackupPath(path, counter));
  }

  /** `TulpOutputFileWriter.write_to_file` */
  method LegacyWriteToFile(fs: FileSystem, path: string, content: string) returns (ok: bool, message: string)
    modifies fs
    ensures LegacyWriteEffect(old(fs.entries), path, content, ok, message, fs.entries)
  {
    ghost var before := fs.entries;
    if fs.Exists(path) {
      var counter, backup := LegacyBackupName(fs, path);
      assert backup !in fs.entries by {
        LeastFreeIsFree(fs.entries.Keys, path, backup);
      }
      if counter > 0 {
        fs.Rename(path, backup);
      }
      assert fs.entries == Renamed(before, path, backup);
    }
    if Opens(fs.entries, path) {
      fs.WriteFile(path, content);
      return true, path;
    }
    return false, OpenError(fs.entries, path);
  }

  /** A target that does not exist is written directly: nothing is renamed
      and no other path changes; a failed open changes nothing. */
  lemma LegacyNewTarget(before: map<string, Entry>, path: string, content: string,
                        ok: bool, message: string, after: map<string, Entry>)
    requires path !in before
    requires LegacyWriteEffect(before, path, content, ok, message, after)
    ensures ok <==> Opens(before, path)
    ensures ok ==> message == path && after.Keys == before.Keys + {path} && after[path] == File(content)
    ensures !ok ==> after == before
    ensures !ok ==> (message == NotADirectoryMessage(path) <==> Blocked(before, DirName(path)))
    ensures !ok ==> (message == NotFoundMessage(path) <==> !Blocked(before, DirName(path)))
    ensures forall p | p in before :: p in after && after[p] == before[p]
  {
  }

  /** An existing target moves to the first free backup name, which was not
      taken, so no earlier backup is overwritten; when the open succeeds
      the new content lands at the target. Every path other than the target
      keeps what it named. */
  lemma LegacyExistingTarget(before: map<string, Entry>, path: string, content: string,
                             ok: bool, message: string, after: map<string, Entry>)
    requires path in before
    requires LegacyWriteEffect(before, path, content, ok, message, after)
    ensures exists b {:trigger IsLeastFreeBackup(before.Keys, path, b)} ::
      && IsLeastFreeBackup(before.Keys, path, b)
      && b !in before && b in after && after[b] == before[path]
      && (ok ==> message == path && after == BackedUpWrite(before, path, b, content))
      && (!ok ==> message == OpenError(Renamed(before, path, b), path) && after == Renamed(before, path, b))
    ensures forall p | p in before && p != path :: p in after && after[p] == before[p]
  {
    var b :| IsLeastFreeBackup(before.Keys, path, b) && OpenEffect(Renamed(before, path, b), path, content, ok, message, after);
    LeastFreeIsFree(before.Keys, path, b);
    BackupIsFresh(before, path, b);
    assert b != path;
    if ok {
      assert after == BackedUpWrite(before, path, b, content);
    }
  }

  lemma BackupIsFresh(before: map<string, Entry>, path: string, b: string)
    requires IsLeastFreeBackup(before.Keys, path, b)
    ensures b != path
  {
    var n: nat :| n >= 1 && b == BackupPath(path, n);
    BackupIsNotOriginal(path, n);
  }
}
