/** The filesystem the two output writers act on, and the path arithmetic
    they share: Python's `os.path.splitext`, `os.path.dirname`,
    `os.path.abspath` with its `normpath` and the backup-name scheme
    `{root}.backup-{n}{ext}`. */
module Files {
  import opened Text

  /** What a path names: a file with its text, or a directory. */
  datatype Entry = File(content: string) | Dir

  /** The part of the filesystem the writers can see: every existing path
      and what it names. The working directory is fixed for a run. */
  class FileSystem {
    var entries: map<string, Entry>
    const cwd: string

    constructor (entries0: map<string, Entry>, cwd0: string)
      ensures entries == entries0 && cwd == cwd0
    {
      entries := entries0;
      cwd := cwd0;
    }

    /** `os.path.exists` */
    predicate Exists(path: string)
      reads this
    {
      path in entries
    }

    /** `os.path.isdir` */
    predicate IsDir(path: string)
      reads this
    {
      path in entries && entries[path].Dir?
    }

    /** `os.makedirs(path, exist_ok=True)`: fails when a directory on the way
      is a file, else creates the missing directories. */
    method MakeDirs(path: string) returns (ok: bool)
      modifies this
      ensures ok == !Blocked(old(entries), path)
      ensures ok ==> entries == MadeDirs(old(entries), path)
      ensures !ok ==> entries == old(entries)
    {
      ok := !Blocked(entries, path);
      if ok {
        entries := MadeDirs(entries, path);
      }
    }

    /** `os.rename(src, dst)` onto a free name. */
    method Rename(src: string, dst: string)
      requires src in entries && dst !in entries
      modifies this
      ensures entries == (old(entries) - {src})[dst := old(entries)[src]]
    {
      entries := (entries - {src})[dst := entries[src]];
    }

    /** Opening `path` for writing and writing `content`. */
    method WriteFile(path: string, content: string)
      modifies this
      ensures entries == old(entries)[path := File(content)]
    {
      entries := entries[path := File(content)];
    }
  }

  /** The directories `os.makedirs(path)` needs: `path` and each of its
      proper prefixes that ends just before a separator, the root excepted. */
  function DirsOf(path: string): set<string> {
    set k | 1 <= k <= |path| && (k == |path| || path[k] == '/') && path[k - 1] != '/' :: path[..k]
  }

  /** Some directory `makedirs` needs is an existing file. */
  predicate Blocked(entries: map<string, Entry>, path: string) {
    exists d | d in DirsOf(path) :: d in entries && entries[d].File?
  }

  /** The filesystem after `makedirs(path)` succeeds. */
  function MadeDirs(entries: map<string, Entry>, path: string): (r: map<string, Entry>)
    ensures r.Keys == entries.Keys + DirsOf(path)
    ensures forall p | p in entries :: r[p] == entries[p]
    ensures forall p | p in DirsOf(path) && p !in entries :: r[p] == Dir
  {
    map p | p in entries.Keys + DirsOf(path) :: if p in entries then entries[p] else Dir
  }

  /** Index of the last `c` in `s`, or -1. */
  function LastIndex(s: string, c: char): (r: int)
    ensures -1 <= r < |s|
    ensures r >= 0 ==> s[r] == c
    ensures forall i | r < i < |s| :: s[i] != c
  {
    if s == [] then -1 else if s[|s| - 1] == c then |s| - 1 else LastIndex(s[..|s| - 1], c)
  }

  predicate AllChar(s: string, c: char) {
    forall i | 0 <= i < |s| :: s[i] == c
  }

  /** An extension: empty, or a dot followed by neither a dot nor a
      separator. */
  predicate IsExtension(ext: string) {
    ext == [] || (ext[0] == '.' && forall i | 1 <= i < |ext| :: ext[i] != '.' && ext[i] != '/')
  }

  /** `os.path.splitext`: the extension is the last dot and what follows,
      provided the dot comes after the last separator and is not part of a
      leading run of dots of the base name. */
  function SplitExt(path: string): (r: (string, string))
    ensures r.0 + r.1 == path
    ensures IsExtension(r.1)
  {
    var sep := LastIndex(path, '/');
    var dot := LastIndex(path, '.');
    if dot > sep && !AllChar(path[sep + 1..dot], '.') then
      ExtensionChars(path, sep, dot);
      (path[..dot], path[dot..])
    else (path, [])
  }

  lemma ExtensionChars(path: string, sep: int, dot: int)
    requires -1 <= sep < dot < |path| && path[dot] == '.'
    requires forall i | sep < i < |path| :: path[i] != '/'
    requires forall i | dot < i < |path| :: path[i] != '.'
    ensures path[..dot] + path[dot..] == path
    ensures IsExtension(path[dot..])
  {
    assert forall i | 0 <= i < |path[dot..]| :: path[dot..][i] == path[dot + i];
  }

  /** The `n`-th backup name of `original`. */
  function BackupPath(original: string, n: nat): (r: string)
    ensures |r| > |original|
  {
    var (root, ext) := SplitExt(original);
    root + ".backup-" + NatToString(n) + ext
  }

  /** `path` is the first free backup name: the `n`-th for the least `n >= 1`
      whose name is not taken. */
  ghost predicate IsLeastFreeBackup(taken: set<string>, original: string, path: string) {
    exists n: nat {:trigger BackupPath(original, n)} ::
      && n >= 1
      && path == BackupPath(original, n)
      && path !in taken
      && forall k | 1 <= k < n :: BackupPath(original, k) in taken
  }

  lemma MiddleEqual(a: string, x: string, y: string, b: string)
    requires a + x + b == a + y + b
    ensures x == y
  {
    assert |x| == |y|;
    assert x == (a + x + b)[|a|..|a| + |x|];
    assert y == (a + y + b)[|a|..|a| + |y|];
  }

  /** Distinct counters give distinct backup names. */
  lemma BackupPathInjective(original: string, m: nat, n: nat)
    ensures BackupPath(original, m) == BackupPath(original, n) ==> m == n
  {
    if BackupPath(original, m) == BackupPath(original, n) {
      var (root, ext) := SplitExt(original);
      MiddleEqual(root + ".backup-", NatToString(m), NatToString(n), ext);
      NatToStringInjective(m, n);
    }
  }

  /** A backup name never names the original itself. */
  lemma BackupIsNotOriginal(original: string, n: nat)
    ensures BackupPath(original, n) != original
  {
  }

  /** The first free backup name is unique. */
  lemma LeastFreeBackupUnique(taken: set<string>, original: string, p: string, q: string)
    requires IsLeastFreeBackup(taken, original, p) && IsLeastFreeBackup(taken, original, q)
    ensures p == q
  {
    var m: nat :| m >= 1 && p == BackupPath(original, m) && p !in taken
                  && forall k | 1 <= k < m :: BackupPath(original, k) in taken;
    var n: nat :| n >= 1 && q == BackupPath(original, n) && q !in taken
                  && forall k | 1 <= k < n :: BackupPath(original, k) in taken;
    assert m < n ==> BackupPath(original, m) in taken;
    assert n < m ==> BackupPath(original, n) in taken;
  }

  /** The first free name when the `n` first ones are taken and the next
      one is free. */
  lemma LeastFreeBackupIs(taken: set<string>, original: string, n: nat, p: string)
    requires n >= 1 && BackupPath(original, n) !in taken
    requires forall k | 1 <= k < n :: BackupPath(original, k) in taken
    requires IsLeastFreeBackup(taken, original, p)
    ensures p == BackupPath(original, n)
  {
    assert IsLeastFreeBackup(taken, original, BackupPath(original, n));
    LeastFreeBackupUnique(taken, original, p, BackupPath(original, n));
  }

  /** `os.path.join(cwd, path)` for a relative `path`. */
  function JoinPath(cwd: string, path: string): (r: string)
    ensures EndsWith(r, path)
  {
    if cwd == [] || cwd[|cwd| - 1] == '/' then cwd + path else cwd + "/" + path
  }

  /** How many separators `normpath` keeps at the start: two when the path
      starts with exactly two, one when it starts with one or with three or
      more, none for a relative path. */
  function LeadingSlashes(p: string): (n: nat)
    ensures n <= 2 && n <= |p|
    ensures forall i | 0 <= i < n :: p[i] == '/'
    ensures n == 0 <==> p == [] || p[0] != '/'
  {
    if |p| >= 2 && p[0] == '/' && p[1] == '/' && !(|p| >= 3 && p[2] == '/') then 2
    else if p != [] && p[0] == '/' then 1
    else 0
  }

  /** One turn of `normpath`'s loop over the components: empty and "."
      components are dropped; ".." removes the previous component, except
      that it is kept at the start of a relative path or after another
      kept "..", and dropped at the root. */
  function PushComponent(acc: seq<string>, comp: string, rooted: bool): seq<string> {
    if comp == "" || comp == "." then acc
    else if comp != ".." || (!rooted && acc == []) || (acc != [] && acc[|acc| - 1] == "..") then acc + [comp]
    else if acc != [] then acc[..|acc| - 1]
    else acc
  }

  /** The whole loop, from the components kept so far. */
  function PushComponents(acc: seq<string>, comps: seq<string>, rooted: bool): seq<string>
    decreases |comps|
  {
    if comps == [] then acc else PushComponents(PushComponent(acc, comps[0], rooted), comps[1..], rooted)
  }

  /** `posixpath.normpath`: the leading separators it keeps, then the
      components it keeps joined by single separators; "." for nothing. */
  function NormPath(p: string): (r: string)
    ensures r != []
  {
    if p == [] then "."
    else
      var lead := LeadingSlashes(p);
      var r := p[..lead] + Join("/", PushComponents([], SplitOn(p, '/'), lead > 0));
      if r == [] then "." else r
  }

  /** The components `normpath` keeps: none is empty or "." or holds a
      separator, and under the root none is "..". */
  predicate GoodComponents(cs: seq<string>, rooted: bool) {
    forall i | 0 <= i < |cs| :: cs[i] != "" && cs[i] != "." && '/' !in cs[i] && (rooted ==> cs[i] != "..")
  }

  lemma {:induction false} PushComponentsGood(acc: seq<string>, comps: seq<string>, rooted: bool)
    requires GoodComponents(acc, rooted)
    requires forall i | 0 <= i < |comps| :: '/' !in comps[i]
    ensures GoodComponents(PushComponents(acc, comps, rooted), rooted)
    decreases |comps|
  {
    if comps != [] {
      PushComponentsGood(PushComponent(acc, comps[0], rooted), comps[1..], rooted);
    }
  }

  /** Components that are already normal under the root are all kept. */
  lemma {:induction false} PushComponentsKeep(acc: seq<string>, comps: seq<string>)
    requires GoodComponents(acc, true) && GoodComponents(comps, true)
    ensures PushComponents(acc, comps, true) == acc + comps
    decreases |comps|
  {
    if comps == [] {
      assert acc + comps == acc;
    } else {
      PushComponentsKeep(acc + [comps[0]], comps[1..]);
      assert acc + [comps[0]] + comps[1..] == acc + comps;
    }
  }

  /** Joining non-empty, separator-free components with "/" gives a string
      that neither starts nor ends with a separator and never holds two in a
      row. */
  lemma {:induction false} JoinComponentsShape(cs: seq<string>)
    requires forall i | 0 <= i < |cs| :: cs[i] != "" && '/' !in cs[i]
    ensures var s := Join("/", cs);
            && (s == [] <==> cs == [])
            && (s != [] ==> s[0] != '/' && s[|s| - 1] != '/')
            && forall i | 0 <= i < |s| - 1 :: !(s[i] == '/' && s[i + 1] == '/')
  {
    if |cs| > 1 {
      JoinComponentsShape(cs[1..]);
      var a, t := cs[0], Join("/", cs[1..]);
      var s := a + "/" + t;
      assert s == Join("/", cs);
      forall i | 0 <= i < |s| - 1
        ensures !(s[i] == '/' && s[i + 1] == '/')
      {
        if i < |a| {
          assert s[i] == a[i];
        } else if i > |a| {
          assert s[i] == t[i - |a| - 1] && s[i + 1] == t[i - |a|];
        }
      }
    } else if |cs| == 1 {
      assert forall i | 0 <= i < |cs[0]| :: cs[0][i] != '/';
    }
  }

  /** At most two separators followed by such a join: it ends with a
      separator only when it is those separators, and has no two separators
      in a row past the first character. */
  lemma PrefixedJoinShape(pre: string, cs: seq<string>)
    requires |pre| <= 2 && AllChar(pre, '/')
    requires forall i | 0 <= i < |cs| :: cs[i] != "" && '/' !in cs[i]
    ensures var r := pre + Join("/", cs);
            && (r != [] && r[|r| - 1] == '/' ==> |r| <= 2 && AllChar(r, '/'))
            && (forall i | 1 <= i < |r| - 1 :: !(r[i] == '/' && r[i + 1] == '/'))
  {
    JoinComponentsShape(cs);
    var body := Join("/", cs);
    var r := pre + body;
    forall i | 1 <= i < |r| - 1
      ensures !(r[i] == '/' && r[i + 1] == '/')
    {
      if i >= |pre| {
        assert r[i] == body[i - |pre|] && r[i + 1] == body[i - |pre| + 1];
      } else {
        assert r[i + 1] == body[0];
      }
    }
  }

  /** Separators in what `normpath` returns: a trailing one only for the
      root, never two in a row past the first, and a leading one exactly
      for an absolute path. */
  lemma NormPathSeparators(p: string)
    ensures var r := NormPath(p);
            && (r[|r| - 1] == '/' ==> |r| <= 2 && AllChar(r, '/'))
            && (forall i | 1 <= i < |r| - 1 :: !(r[i] == '/' && r[i + 1] == '/'))
            && (p != [] && p[0] == '/' ==> r[0] == '/')
  {
    if p != [] {
      var lead := LeadingSlashes(p);
      var cs := PushComponents([], SplitOn(p, '/'), lead > 0);
      PushComponentsGood([], SplitOn(p, '/'), lead > 0);
      PrefixedJoinShape(p[..lead], cs);
    }
  }

  /** Components of what `normpath` returns, after its leading separators:
      none is empty or ".", and under the root none is "..". */
  lemma NormPathComponents(p: string)
    ensures var r := NormPath(p);
            r != "." ==> r[LeadingSlashes(p)..] == []
                         || GoodComponents(SplitOn(r[LeadingSlashes(p)..], '/'), LeadingSlashes(p) > 0)
  {
    if p != [] {
      var lead := LeadingSlashes(p);
      var cs := PushComponents([], SplitOn(p, '/'), lead > 0);
      PushComponentsGood([], SplitOn(p, '/'), lead > 0);
      var r := p[..lead] + Join("/", cs);
      if r != [] {
        assert r[lead..] == Join("/", cs);
        if cs != [] {
          SplitOnJoin(cs, '/');
        }
      }
    }
  }

  /** What `normpath` returns is normal: it ends with a separator only when
      it is the root ("/" or "//"), it never holds two separators in a row
      past the first, an absolute path stays absolute, and every component
      after the leading separators is non-empty, not "." and, under the
      root, not "..". */
  lemma NormPathShape(p: string)
    ensures var r := NormPath(p);
            && (r[|r| - 1] == '/' ==> |r| <= 2 && AllChar(r, '/'))
            && (forall i | 1 <= i < |r| - 1 :: !(r[i] == '/' && r[i + 1] == '/'))
            && (p != [] && p[0] == '/' ==> r[0] == '/')
            && (r != "." ==> r[LeadingSlashes(p)..] == []
                             || GoodComponents(SplitOn(r[LeadingSlashes(p)..], '/'), LeadingSlashes(p) > 0))
  {
    NormPathSeparators(p);
    NormPathComponents(p);
  }

  /** Normalising an absolute path twice is normalising it once. */
  lemma NormPathIdempotent(p: string)
    requires p != [] && p[0] == '/'
    ensures NormPath(NormPath(p)) == NormPath(p)
  {
    var lead := LeadingSlashes(p);
    var cs := PushComponents([], SplitOn(p, '/'), true);
    PushComponentsGood([], SplitOn(p, '/'), true);
    JoinComponentsShape(cs);
    var body := Join("/", cs);
    var r := p[..lead] + body;
    assert NormPath(p) == r;
    assert LeadingSlashes(r) == lead;
    assert r[..lead] == p[..lead];
    var tail := if cs == [] then [""] else cs;
    assert SplitOn(body, '/') == tail by {
      if cs != [] { SplitOnJoin(cs, '/'); }
    }
    var comps := SplitOn(r, '/');
    if lead == 1 {
      assert r == [] + ['/'] + body;
      SplitOnAt([], body, '/');
      assert comps == [""] + tail;
    } else {
      assert r == [] + ['/'] + ([] + ['/'] + body);
      SplitOnAt([], [] + ['/'] + body, '/');
      SplitOnAt([], body, '/');
      assert comps == [""] + ([""] + tail);
      assert PushComponents([], comps, true) == PushComponents([], [""] + tail, true);
    }
    assert PushComponents([], comps, true) == PushComponents([], tail, true);
    if cs == [] {
      assert PushComponents([], tail, true) == [];
    } else {
      PushComponentsKeep([], cs);
      assert [] + cs == cs;
    }
  }

  /** `os.path.abspath` for a non-empty path: a relative path is joined to
      the working directory, and the result is normalised. */
  function AbsPath(cwd: string, path: string): (r: string)
    requires path != []
    ensures path[0] == '/' ==> r == NormPath(path)
    ensures path[0] != '/' ==> r == NormPath(JoinPath(cwd, path))
  {
    NormPath(if path[0] == '/' then path else JoinPath(cwd, path))
  }

  /** With an absolute working directory the result is absolute and normal:
      taking it again changes nothing. */
  lemma AbsPathNormal(cwd: string, path: string)
    requires path != [] && (path[0] == '/' || (cwd != [] && cwd[0] == '/'))
    ensures var r := AbsPath(cwd, path);
            r[0] == '/' && AbsPath(cwd, r) == r
  {
    var joined := if path[0] == '/' then path else JoinPath(cwd, path);
    NormPathSeparators(joined);
    NormPathIdempotent(joined);
  }

  /** `s.rstrip('/')` */
  function TrimSlashes(s: string): (r: string)
    ensures |r| <= |s| && r == s[..|r|]
    ensures r == [] || r[|r| - 1] != '/'
  {
    if s != [] && s[|s| - 1] == '/' then TrimSlashes(s[..|s| - 1]) else s
  }

  /** `os.path.dirname`: everything up to the last separator, with trailing
      separators removed unless it is only separators. */
  function DirName(path: string): (r: string)
    ensures '/' !in path ==> r == []
    ensures |r| <= |path|
  {
    var head := path[..LastIndex(path, '/') + 1];
    if head != [] && !AllChar(head, '/') then TrimSlashes(head) else head
  }

  /** A trailing separator is dropped: "/c/out/" names the file "/c/out". */
  lemma AbsPathExample(cwd: string, path: string)
    requires cwd == "/c" && path == "/c/out/"
    ensures AbsPath(cwd, path) == "/c/out"
  {
    assert path == [] + ['/'] + ("c" + ['/'] + ("out" + ['/'] + []));
    SplitOnAt("out", [], '/');
    SplitOnAt("c", "out" + ['/'] + [], '/');
    SplitOnAt([], "c" + ['/'] + ("out" + ['/'] + []), '/');
    var comps := SplitOn(path, '/');
    assert comps == ["", "c", "out", ""];
    assert "c" != "." && "c" != ".." && "out" != "." && "out" != "..";
    assert PushComponents([], comps, true) == PushComponents([], comps[1..], true);
    assert PushComponent([], "c", true) == ["c"];
    assert comps[1..][0] == "c" && comps[1..][1..] == comps[2..];
    assert PushComponents([], comps[1..], true) == PushComponents(["c"], comps[2..], true);
    assert PushComponent(["c"], "out", true) == ["c", "out"];
    assert comps[2..][0] == "out" && comps[2..][1..] == comps[3..];
    assert PushComponents(["c"], comps[2..], true) == PushComponents(["c", "out"], comps[3..], true);
    assert PushComponents(["c", "out"], comps[3..], true) == ["c", "out"];
    assert Join("/", ["c", "out"]) == "c" + "/" + "out";
    assert LeadingSlashes(path) == 1;
  }
}
