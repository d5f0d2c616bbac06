/** tulp/output_handler.py: cleaning the final text, the text `print_stdout`
    emits, and `OutputFileWriter`, which writes the output to a file after
    moving any existing file to the first free backup name. */
module OutputHandler {
  import opened Text
  import opened Files

  const Fence := "```"

  // ---------------------------------------------------------------------
  // cleanup_output: the regex `^\s*```[a-zA-Z]*\n(.*?)\n```\s*$` (DOTALL,
  // MULTILINE), matched at the start of the stripped text, as a matcher.

  /** Length of the run of ASCII letters starting at `i`. */
  function LetterRun(s: string, i: nat): (r: nat)
    requires i <= |s|
    ensures i + r <= |s|
    ensures forall k | i <= k < i + r :: IsAsciiLetter(s[k])
    ensures i + r == |s| || !IsAsciiLetter(s[i + r])
    decreases |s| - i
  {
    if i < |s| && IsAsciiLetter(s[i]) then 1 + LetterRun(s, i + 1) else 0
  }

  /** Three backticks start at `i`. */
  predicate FenceAt(s: string, i: nat) {
    i + 3 <= |s| && s[i] == '`' && s[i + 1] == '`' && s[i + 2] == '`'
  }

  /** Where the fenced content starts: after "```", a run of letters and a
      line feed at the very start of `s`. The leading `\s*` of the regex
      matches nothing on stripped text. */
  function OpeningEnd(s: string): (r: Option<nat>)
    ensures r.Some? ==> 4 <= r.value <= |s| && FenceAt(s, 0) && s[r.value - 1] == '\n'
  {
    if FenceAt(s, 0) then
      var k := LetterRun(s, 3);
      if 3 + k < |s| && s[3 + k] == '\n' then Some(4 + k) else None
    else None
  }

  /** `\s*$` from `i` in MULTILINE mode: only whitespace up to a line feed
      or the end of the text. */
  predicate RestOfLineBlank(s: string, i: nat)
    requires i <= |s|
    decreases |s| - i
  {
    i == |s| || s[i] == '\n' || (IsSpace(s[i]) && RestOfLineBlank(s, i + 1))
  }

  /** The closing part `\n```\s*$` matches at `g`. */
  predicate ClosesAt(s: string, g: nat) {
    g + 4 <= |s| && s[g] == '\n' && FenceAt(s, g + 1) && RestOfLineBlank(s, g + 4)
  }

  /** The lazy `(.*?)`: the first position from `from` on where the closing
      part matches. */
  function FirstClose(s: string, from: nat): (r: Option<nat>)
    requires from <= |s|
    ensures r.Some? ==> from <= r.value && ClosesAt(s, r.value)
    ensures r.Some? ==> forall g | from <= g < r.value :: !ClosesAt(s, g)
    ensures r.None? ==> forall g | from <= g :: !ClosesAt(s, g)
    decreases |s| - from
  {
    if ClosesAt(s, from) then Some(from)
    else if from == |s| then None
    else FirstClose(s, from + 1)
  }

  /** `cleanup_output`: strip, then, when the whole text is one fenced code
      block, keep only its stripped content. */
  function CleanupOutput(output: string): (r: string)
    ensures Stripped(r)
    ensures |r| <= |output|
  {
    var cleaned := Strip(output);
    match OpeningEnd(cleaned)
    case None => cleaned
    case Some(j) =>
      match FirstClose(cleaned, j)
      case None => cleaned
      case Some(g) => Strip(cleaned[j..g])
  }

  /** Text that does not start with a fence is only stripped. */
  lemma CleanupUnfenced(output: string)
    requires !FenceAt(Strip(output), 0)
    ensures CleanupOutput(output) == Strip(output)
  {
  }

  lemma RestOfLineBlankShift(p: string, q: string, i: nat)
    requires i <= |q|
    ensures RestOfLineBlank(p + q, |p| + i) == RestOfLineBlank(q, i)
    decreases |q| - i
  {
    if i < |q| {
      assert (p + q)[|p| + i] == q[i];
      RestOfLineBlankShift(p, q, i + 1);
    }
  }

  /** The first closing fence wins. */
  lemma FirstCloseIs(s: string, from: nat, g: nat)
    requires from <= g && from <= |s|
    requires ClosesAt(s, g)
    requires forall h | from <= h < g :: !ClosesAt(s, h)
    ensures FirstClose(s, from) == Some(g)
  {
  }

  /** An opening fence line "```lang" is recognised, and the content starts
      right after it. */
  lemma FencedOpening(s: string, lang: string, rest: string)
    requires s == Fence + lang + "\n" + rest
    requires forall i | 0 <= i < |lang| :: IsAsciiLetter(lang[i])
    ensures OpeningEnd(s) == Some(4 + |lang|)
  {
    assert s[0] == '`' && s[1] == '`' && s[2] == '`';
    assert forall i | 0 <= i < |lang| :: s[3 + i] == lang[i];
    assert s[3 + |lang|] == '\n';
    LetterRunIs(s, 3, |lang|);
  }

  lemma FencedClosing(s: string, pre: string, x: string, after: string)
    requires s == pre + x + "\n" + Fence + after
    requires forall i | 0 <= i < |x| :: x[i] != '`'
    requires RestOfLineBlank(after, 0)
    ensures FirstClose(s, |pre|) == Some(|pre| + |x|)
  {
    var p := pre + x + "\n" + Fence;
    assert s == p + after;
    var g := |pre| + |x|;
    assert s[g] == '\n' && s[g + 1] == '`' && s[g + 2] == '`' && s[g + 3] == '`';
    RestOfLineBlankShift(p, after, 0);
    assert ClosesAt(s, g);
      forall h | |pre| <= h < g
        ensures !ClosesAt(s, h)
      {
        if h + 1 < g {
          assert s[h + 1] == x[h + 1 - |pre|];
        } else {
          assert s[h + 1] == '\n';
        }
      }
    FirstCloseIs(s, |pre|, g);
  }

  /** A stripped text made of an opening fence line "```lang", content
      without backticks, and a closing fence line followed only by
      whitespace before a line break or the end, cleans to the stripped
      content: whatever follows the closing line is dropped. */
  lemma CleanupAt(s: string, j: nat, g: nat)
    requires Stripped(s)
    requires OpeningEnd(s) == Some(j) && j <= g <= |s| && FirstClose(s, j) == Some(g)
    ensures CleanupOutput(s) == Strip(s[j..g])
  {
    StrippedIsFixpoint(s);
  }

  lemma CleanupFenced(s: string, lang: string, x: string, after: string)
    requires s == Fence + lang + "\n" + x + "\n" + Fence + after
    requires forall i | 0 <= i < |lang| :: IsAsciiLetter(lang[i])
    requires forall i | 0 <= i < |x| :: x[i] != '`'
    requires RestOfLineBlank(after, 0)
    requires Stripped(s)
    ensures CleanupOutput(s) == Strip(x)
  {
    var pre := Fence + lang + "\n";
    var rest := x + "\n" + Fence + after;
    assert s == pre + x + "\n" + Fence + after;
    assert s == Fence + lang + "\n" + rest;
    var j, g := |pre|, |pre| + |x|;
    assert j == 4 + |lang| && g <= |s|;
    FencedOpening(s, lang, rest);
    FencedClosing(s, pre, x, after);
    assert s[j..g] == x;
    CleanupAt(s, j, g);
  }

  lemma LetterRunIs(s: string, i: nat, n: nat)
    requires i + n < |s|
    requires forall k | i <= k < i + n :: IsAsciiLetter(s[k])
    requires !IsAsciiLetter(s[i + n])
    ensures LetterRun(s, i) == n
    decreases n
  {
    if n > 0 {
      LetterRunIs(s, i + 1, n - 1);
    }
  }

  /** The plainest fenced block: "```\nX\n```" cleans to "X". */
  lemma CleanupExample()
    ensures CleanupOutput("```\nX\n```") == "X"
  {
    assert Fence + "" + "\n" + "X" + "\n" + Fence + "" == "```\nX\n```";
    StrippedIsFixpoint("X");
    CleanupFenced("```\nX\n```", "", "X", "");
  }

  /** The text `print_stdout(content)` writes: nothing for empty cleaned
      content, otherwise the cleaned content and a line feed if it lacks
      one. */
  function EmittedStdout(content: string): (r: string)
    ensures r == [] <==> CleanupOutput(content) == []
    ensures r != [] ==> r == CleanupOutput(content) + "\n"
  {
    var cleaned := CleanupOutput(content);
    if cleaned == [] then []
    else if EndsWith(cleaned, "\n") then cleaned
    else cleaned + "\n"
  }

  // ---------------------------------------------------------------------
  // OutputFileWriter

  function IsDirMessage(full: string): string {
    "Error: Output path '" + full + "' exists and is a directory."
  }

  /** The start of the message for an `OSError`; the exception's own text
      that follows is not modelled. */
  function OsErrorMessage(full: string): string {
    "OS error writing to file '" + full + "': "
  }

  /** `_find_backup_path`: try `.backup-1`, `.backup-2`, ... until a name is
      free. The loop ends because each name tried is a distinct existing
      path and there are finitely many. */
  method FindBackupPath(fs: FileSystem, original: string) returns (path: string)
    ensures IsLeastFreeBackup(fs.entries.Keys, original, path)
  {
    var counter := 1;
    path := BackupPath(original, counter);
    ghost var tried: set<string> := {};
    while fs.Exists(path)
      invariant counter >= 1 && path == BackupPath(original, counter)
      invariant tried <= fs.entries.Keys && |tried| == counter - 1
      invariant forall n: nat | n >= counter :: BackupPath(original, n) !in tried
      invariant forall k | 1 <= k < counter :: BackupPath(original, k) in fs.entries
      decreases |fs.entries.Keys| - |tried|
    {
      forall n: nat | n >= counter + 1
        ensures BackupPath(original, n) != path
      {
        BackupPathInjective(original, n, counter);
      }
      SubsetCardinality(tried + {path}, fs.entries.Keys);
      tried := tried + {path};
      counter := counter + 1;
      path := BackupPath(original, counter);
    }
  }

  lemma SubsetCardinality(a: set<string>, b: set<string>)
    requires a <= b
    ensures |a| <= |b|
  {
    assert b == a + (b - a);
  }

  /** The directories `write_to_file` creates before writing. */
  function Prepared(entries: map<string, Entry>, full: string): map<string, Entry> {
    var parent := DirName(full);
    if parent != [] then MadeDirs(entries, parent) else entries
  }

  /** The existing file moved to `backup`, the new content at `full`. */
  function BackedUpWrite(entries: map<string, Entry>, full: string, backup: string, content: string): map<string, Entry>
    requires full in entries
  {
    entries[backup := entries[full]][full := File(content)]
  }

  /** What `write_to_file` does for a non-empty path, `full` being its
      absolute form: the outcome and the filesystem afterwards. */
  ghost predicate WriteEffect(before: map<string, Entry>, full: string, content: string,
                              ok: bool, message: string, after: map<string, Entry>) {
    var parent := DirName(full);
    if parent != [] && Blocked(before, parent) then
      !ok && message == OsErrorMessage(full) && after == before
    else
      var made := Prepared(before, full);
      if full in made && made[full].Dir? then
        !ok && message == IsDirMessage(full) && after == made
      else if full in made then
        && ok && message == full
        && exists b :: IsLeastFreeBackup(made.Keys, full, b) && after == BackedUpWrite(made, full, b, content)
      else
        ok && message == full && after == made[full := File(content)]
  }

  /** `OutputFileWriter.write_to_file` */
  method WriteToFile(fs: FileSystem, filePath: string, content: string) returns (ok: bool, message: string)
    modifies fs
    ensures filePath == [] ==> !ok && message == "No file path specified." && fs.entries == old(fs.entries)
    ensures filePath != [] ==> WriteEffect(old(fs.entries), AbsPath(fs.cwd, filePath), content, ok, message, fs.entries)
  {
    if filePath == [] {
      return false, "No file path specified.";
    }
    ghost var before := fs.entries;
    var full := AbsPath(fs.cwd, filePath);
    var parent := DirName(full);
    if parent != [] {
      var made := fs.MakeDirs(parent);
      if !made {
        WriteEffectBlocked(before, full, content);
        return false, OsErrorMessage(full);
      }
    }
    ghost var made := fs.entries;
    assert made == Prepared(before, full);
    if fs.Exists(full) {
      if fs.IsDir(full) {
        WriteEffectIsDir(before, full, content);
        return false, IsDirMessage(full);
      }
      var backup := FindBackupPath(fs, full);
      assert backup !in made by {
        LeastFreeIsFree(made.Keys, full, backup);
      }
      fs.Rename(full, backup);
      fs.WriteFile(full, content);
      RenameThenWrite(made, full, backup, content);
      WriteEffectBackup(before, full, content, backup);
    } else {
      fs.WriteFile(full, content);
      WriteEffectNew(before, full, content);
    }
    ok, message := true, full;
  }

  lemma LeastFreeIsFree(taken: set<string>, original: string, path: string)
    requires IsLeastFreeBackup(taken, original, path)
    ensures path !in taken
  {
  }

  /** Renaming the file away and writing anew is the backed-up write. */
  lemma RenameThenWrite(entries: map<string, Entry>, full: string, backup: string, content: string)
    requires full in entries && backup !in entries
    ensures (entries - {full})[backup := entries[full]][full := File(content)]
            == BackedUpWrite(entries, full, backup, content)
  {
  }

  lemma WriteEffectBlocked(before: map<string, Entry>, full: string, content: string)
    requires DirName(full) != [] && Blocked(before, DirName(full))
    ensures WriteEffect(before, full, content, false, OsErrorMessage(full), before)
  {
  }

  lemma WriteEffectIsDir(before: map<string, Entry>, full: string, content: string)
    requires !(DirName(full) != [] && Blocked(before, DirName(full)))
    requires full in Prepared(before, full) && Prepared(before, full)[full].Dir?
    ensures WriteEffect(before, full, content, false, IsDirMessage(full), Prepared(before, full))
  {
  }

  lemma WriteEffectBackup(before: map<string, Entry>, full: string, content: string, backup: string)
    requires !(DirName(full) != [] && Blocked(before, DirName(full)))
    requires full in Prepared(before, full) && Prepared(before, full)[full].File?
    requires IsLeastFreeBackup(Prepared(before, full).Keys, full, backup)
    ensures WriteEffect(before, full, content, true, full, BackedUpWrite(Prepared(before, full), full, backup, content))
  {
  }

  lemma WriteEffectNew(before: map<string, Entry>, full: string, content: string)
    requires !(DirName(full) != [] && Blocked(before, DirName(full)))
    requires full !in Prepared(before, full)
    ensures WriteEffect(before, full, content, true, full, Prepared(before, full)[full := File(content)])
  {
  }

  /** A backed-up write adds exactly the backup name, which was free; the
      old content moves there, the new content lands at the path, and every
      other path, earlier backups included, keeps what it named. */
  lemma BackedUpWriteFrame(entries: map<string, Entry>, full: string, backup: string, content: string)
    requires full in entries
    requires IsLeastFreeBackup(entries.Keys, full, backup)
    ensures backup !in entries && backup != full
    ensures BackedUpWrite(entries, full, backup, content).Keys == entries.Keys + {backup}
    ensures BackedUpWrite(entries, full, backup, content)[full] == File(content)
    ensures BackedUpWrite(entries, full, backup, content)[backup] == entries[full]
    ensures forall p | p in entries && p != full :: BackedUpWrite(entries, full, backup, content)[p] == entries[p]
  {
  }

  /** Every directory `makedirs(path)` needs is a prefix of `path`. */
  lemma DirsOfShorter(path: string)
    ensures forall d | d in DirsOf(path) :: |d| <= |path|
  {
  }

  /** Making the parent of an existing file adds only directories shorter
      than the path: the file and the free backup names are as before. */
  lemma PreparedKeepsFile(e0: map<string, Entry>, full: string)
    requires full in e0 && e0[full].File?
    requires !Blocked(e0, DirName(full))
    ensures full !in DirsOf(DirName(full))
    ensures full in Prepared(e0, full) && Prepared(e0, full)[full] == e0[full]
    ensures forall n: nat | BackupPath(full, n) !in e0 :: BackupPath(full, n) !in Prepared(e0, full)
  {
    DirsOfShorter(DirName(full));
  }

  /** After a backed-up write on a prepared filesystem, making the parent
      again changes nothing and cannot fail. */
  lemma PreparedAgain(e0: map<string, Entry>, full: string, b1: string, c1: string)
    requires full in e0 && e0[full].File?
    requires !Blocked(e0, DirName(full))
    requires b1 !in Prepared(e0, full) && |b1| > |full|
    ensures full in Prepared(e0, full)
    ensures var e1 := BackedUpWrite(Prepared(e0, full), full, b1, c1);
            !Blocked(e1, DirName(full)) && Prepared(e1, full) == e1
  {
    var parent := DirName(full);
    PreparedKeepsFile(e0, full);
    DirsOfShorter(parent);
    var p0 := Prepared(e0, full);
    var e1 := BackedUpWrite(p0, full, b1, c1);
    forall d | d in DirsOf(parent) && d in e1
      ensures !e1[d].File?
    {
      assert d != full && d != b1;
    }
    if parent != [] {
      assert DirsOf(parent) <= e1.Keys;
      assert MadeDirs(e1, parent) == e1;
    }
  }

  /** One `write_to_file` on an existing file whose parent can be made and
      whose first backup name `n` is free moves the file to that name. */
  lemma WriteOverFile(e0: map<string, Entry>, full: string, c: string, n: nat,
                      ok: bool, m: string, e1: map<string, Entry>)
    requires full in e0 && e0[full].File?
    requires !Blocked(e0, DirName(full))
    requires n >= 1 && BackupPath(full, n) !in e0
    requires forall k | 1 <= k < n :: BackupPath(full, k) in e0
    requires WriteEffect(e0, full, c, ok, m, e1)
    ensures ok && m == full
    ensures e1 == BackedUpWrite(Prepared(e0, full), full, BackupPath(full, n), c)
  {
    PreparedKeepsFile(e0, full);
    var p0 := Prepared(e0, full);
    var b :| IsLeastFreeBackup(p0.Keys, full, b) && e1 == BackedUpWrite(p0, full, b, c);
    LeastFreeBackupIs(p0.Keys, full, n, b);
  }

  /** Two successive `write_to_file` calls on an existing file whose parent
      can be made and whose first two backup names are free both succeed:
      the original moves to `.backup-1`, the first write's content to
      `.backup-2`, and the second write's content stays at the path. */
  lemma TwoWritesBackups(e0: map<string, Entry>, full: string, c1: string, c2: string,
                         ok1: bool, m1: string, e1: map<string, Entry>,
                         ok2: bool, m2: string, e2: map<string, Entry>)
    requires full in e0 && e0[full].File?
    requires !Blocked(e0, DirName(full))
    requires BackupPath(full, 1) !in e0 && BackupPath(full, 2) !in e0
    requires WriteEffect(e0, full, c1, ok1, m1, e1)
    requires WriteEffect(e1, full, c2, ok2, m2, e2)
    ensures ok1 && ok2 && m1 == full && m2 == full
    ensures e2[BackupPath(full, 1)] == e0[full]
    ensures e2[BackupPath(full, 2)] == File(c1)
    ensures e2[full] == File(c2)
  {
    var b1, b2 := BackupPath(full, 1), BackupPath(full, 2);
    BackupPathInjective(full, 1, 2);
    WriteOverFile(e0, full, c1, 1, ok1, m1, e1);
    PreparedKeepsFile(e0, full);
    var p0 := Prepared(e0, full);
    PreparedAgain(e0, full, b1, c1);
    assert e1 == BackedUpWrite(p0, full, b1, c1);
    assert b2 !in e1 && b1 in e1;
    WriteOverFile(e1, full, c2, 2, ok2, m2, e2);
    assert e2 == BackedUpWrite(e1, full, b2, c2);
  }

  lemma WriteUnderNewDir(full: string, ok: bool, m: string, e: map<string, Entry>)
    requires full == "/c/out"
    requires WriteEffect(map[], full, "x", ok, m, e)
    ensures ok && m == "/c/out" && e == map["/c" := Dir, "/c/out" := File("x")]
  {
    assert full[2] == '/' && full[3] == 'o' && full[4] == 'u' && full[5] == 't' && full[1] == 'c';
    assert LastIndex(full, '/') == 2;
    var head := full[..3];
    assert head == "/c/" && head[1] != '/';
    assert head[..2] == "/c";
    assert TrimSlashes(head) == "/c";
    assert DirName(full) == "/c";
    assert DirsOf("/c") == {"/c"};
    assert !Blocked(map[], "/c");
    assert Prepared(map[], full) == map["/c" := Dir];
  }

  /** Writing to "/c/out/" on an empty filesystem makes the directory "/c"
      and writes the file "/c/out"; no entry is spelled with the trailing
      separator. */
  lemma TrailingSeparatorWrite(cwd: string, path: string, ok: bool, m: string, e: map<string, Entry>)
    requires cwd == "/c" && path == "/c/out/"
    requires WriteEffect(map[], AbsPath(cwd, path), "x", ok, m, e)
    ensures ok && m == "/c/out"
    ensures e == map["/c" := Dir, "/c/out" := File("x")]
  {
    AbsPathExample(cwd, path);
    WriteUnderNewDir(AbsPath(cwd, path), ok, m, e);
  }
}
