/** Listing the files of a directory and building the line-level inverted
    index: token -> the (file id, line number) pairs whose line holds it. */
module Indexer {
  import opened Results
  import opened Text
  import opened Models
  import Tokenizer

  /** scan_files refuses a root that is not a directory. */
  datatype ScanError = NotADirectory(root: string)

  // ---------------------------------------------------------------------------
  // Paths
  // ---------------------------------------------------------------------------

  /** os.path.join on POSIX for one more component: an absolute component
      replaces the directory, otherwise a single "/" separates them. */
  function JoinPath(dir: string, name: string): (p: string)
    ensures |p| >= |name| && p[|p| - |name|..] == name
    ensures (|name| > 0 && name[0] == '/') ==> p == name
    ensures !(|name| > 0 && name[0] == '/') ==> dir <= p
  {
    if |name| > 0 && name[0] == '/' then name
    else if dir == [] || dir[|dir| - 1] == '/' then dir + name
    else dir + "/" + name
  }

  /** str.rfind for one character: the last position holding c, or -1. */
  function LastIndex(s: string, c: char): (k: int)
    ensures -1 <= k < |s|
    ensures k >= 0 ==> s[k] == c
    ensures forall i :: k < i < |s| ==> s[i] != c
  {
    if s == [] then -1
    else if s[|s| - 1] == c then |s| - 1
    else LastIndex(s[..|s| - 1], c)
  }

  /** os.path.splitext on POSIX: the extension starts at the last "." of the
      last path component, unless everything before that "." in the component
      is dots (so ".bashrc" and "..x" have no extension). */
  function SplitExt(p: string): (r: (string, string))
    ensures r.0 + r.1 == p
    ensures r.1 != [] ==> r.1[0] == '.' && '.' !in r.1[1..] && '/' !in r.1
    ensures r.1 != [] ==> exists i :: LastIndex(p, '/') < i < |r.0| && r.0[i] != '.'
  {
    var sep := LastIndex(p, '/');
    var dot := LastIndex(p, '.');
    if dot > sep && exists i :: sep < i < dot && p[i] != '.' then
      assert p[..dot] + p[dot..] == p;
      (p[..dot], p[dot..])
    else
      (p, [])
  }

  lemma {:induction false} LastIndexConcat(a: string, b: string, c: char)
    ensures LastIndex(a + b, c) == if c in b then |a| + LastIndex(b, c) else LastIndex(a, c)
    decreases |b|
  {
    if b == [] {
      assert a + b == a;
    } else {
      var b' := b[..|b| - 1];
      assert (a + b)[..|a + b| - 1] == a + b';
      LastIndexConcat(a, b', c);
      assert c in b <==> c in b' || b[|b| - 1] == c by {
        assert b == b' + [b[|b| - 1]];
      }
    }
  }

  /** A directory entry "stem.suffix" whose stem is not all dots splits at its
      last dot: the extension is ".suffix". */
  lemma SplitExtOfName(stem: string, suffix: string)
    requires '/' !in stem && '/' !in suffix && '.' !in suffix
    requires exists i :: 0 <= i < |stem| && stem[i] != '.'
    ensures SplitExt(stem + "." + suffix) == (stem, "." + suffix)
  {
    var p := stem + "." + suffix;
    assert p == stem + ("." + suffix);
    LastIndexConcat(".", suffix, '.');
    LastIndexConcat(stem, "." + suffix, '.');
    assert '/' !in p;
    assert LastIndex(p, '/') == -1;
    assert LastIndex(p, '.') == |stem|;
    assert p[..|stem|] == stem;
    assert p[|stem|..] == "." + suffix;
  }

  /** A dotfile name ".rest" has no extension. */
  lemma SplitExtDotfile(rest: string)
    requires '/' !in rest && '.' !in rest
    ensures SplitExt("." + rest) == ("." + rest, "")
  {
    var p := "." + rest;
    LastIndexConcat(".", rest, '.');
    assert '/' !in p;
    assert LastIndex(p, '/') == -1;
    assert LastIndex(p, '.') == 0;
  }

  lemma SplitExtExamples()
    ensures SplitExt("notes.TXT") == ("notes", ".TXT")
    ensures SplitExt("a.tar.gz") == ("a.tar", ".gz")
    ensures SplitExt(".bashrc") == (".bashrc", "")
  {
    assert "notes"[0] != '.';
    SplitExtOfName("notes", "TXT");
    assert "notes" + "." + "TXT" == "notes.TXT";
    assert "a.tar"[0] != '.';
    SplitExtOfName("a.tar", "gz");
    assert "a.tar" + "." + "gz" == "a.tar.gz";
    SplitExtDotfile("bashrc");
    assert "." + "bashrc" == ".bashrc";
  }

  /** The extension scan_files compares: splitext's, lower-cased. */
  function Extension(name: string): string
  {
    LowerString(SplitExt(name).1)
  }

  /** The file type scan_files assigns to an accepted (lower-cased) extension. */
  function FileTypeOf(ext: string): (t: FileType)
    ensures t == TXT <==> ext == ".txt"
    ensures t == LOG <==> ext == ".log"
    ensures t == PY <==> ext == ".py"
    ensures t == MD <==> ext != ".txt" && ext != ".log" && ext != ".py"
  {
    if ext == ".txt" then TXT
    else if ext == ".log" then LOG
    else if ext == ".py" then PY
    else MD
  }

  // ---------------------------------------------------------------------------
  // scan_files
  // ---------------------------------------------------------------------------

  /** A directory entry is kept when it is a regular file and its lower-cased
      extension is one of the allowed ones. */
  predicate Kept(root: string, name: string, disk: Disk, extensions: set<string>)
  {
    JoinPath(root, name) in disk && Extension(name) in extensions
  }

  /** The record scan_files makes for a kept entry. */
  function RecordOf(root: string, name: string, disk: Disk): (rec: FileRecord)
    requires JoinPath(root, name) in disk
  {
    var path := JoinPath(root, name);
    FileRecord(path, disk[path].size, disk[path].mtime, FileTypeOf(Extension(name)))
  }

  /** The records of the kept entries of a listing, in listing order. */
  function Scanned(root: string, names: seq<string>, disk: Disk, extensions: set<string>): seq<FileRecord>
  {
    if names == [] then []
    else
      var last := names[|names| - 1];
      Scanned(root, names[..|names| - 1], disk, extensions)
        + (if Kept(root, last, disk, extensions) then [RecordOf(root, last, disk)] else [])
  }

  lemma ScannedSnoc(root: string, names: seq<string>, disk: Disk, extensions: set<string>, i: int)
    requires 0 <= i < |names|
    ensures Scanned(root, names[..i + 1], disk, extensions)
         == Scanned(root, names[..i], disk, extensions)
            + (if Kept(root, names[i], disk, extensions) then [RecordOf(root, names[i], disk)] else [])
  {
    assert names[..i + 1][..i] == names[..i];
  }

  /** scan_files(root, extensions): dirs are the paths that are directories,
      names is os.listdir(root) in the order it lists them. */
  method ScanFiles(root: string, dirs: set<string>, names: seq<string>, disk: Disk, extensions: set<string>)
    returns (r: Result<seq<FileRecord>, ScanError>)
    ensures r.Failure? <==> root !in dirs
    ensures r.Failure? ==> r.error == NotADirectory(root)
    ensures r.Success? ==> r.value == Scanned(root, names, disk, extensions)
  {
    if root !in dirs {
      return Failure(NotADirectory(root));
    }
    var records: seq<FileRecord> := [];
    var i := 0;
    while i < |names|
      invariant 0 <= i <= |names|
      invariant records == Scanned(root, names[..i], disk, extensions)
    {
      var name := names[i];
      var path := JoinPath(root, name);
      var ext := Extension(name);
      ScannedSnoc(root, names, disk, extensions, i);
      if path in disk && ext in extensions {
        var fileType := FileTypeOf(ext);
        records := records + [FileRecord(path, disk[path].size, disk[path].mtime, fileType)];
      }
      i := i + 1;
    }
    assert names[..i] == names;
    return Success(records);
  }

  /** A record is scanned exactly when some listed entry is kept and the record
      is made from it: path joined to the root, size and mtime read from the
      file, type from the lower-cased extension. */
  lemma {:induction false} ScannedMembers(root: string, names: seq<string>, disk: Disk, extensions: set<string>)
    ensures |Scanned(root, names, disk, extensions)| <= |names|
    ensures forall rec :: rec in Scanned(root, names, disk, extensions) <==>
      exists name :: name in names && Kept(root, name, disk, extensions) && rec == RecordOf(root, name, disk)
  {
    if names != [] {
      var init := names[..|names| - 1];
      ScannedMembers(root, init, disk, extensions);
      assert names == init + [names[|names| - 1]];
      assert forall name :: name in names <==> name in init || name == names[|names| - 1];
    }
  }

  /** Only the lower-case members of the allowed set can ever match, because
      the extension is lower-cased before the comparison. */
  lemma {:induction false} ScanIgnoresUpperCaseExtensions(root: string, names: seq<string>, disk: Disk, extensions: set<string>)
    ensures Scanned(root, names, disk, extensions)
         == Scanned(root, names, disk, set e | e in extensions && LowerString(e) == e)
  {
    var lowered := set e | e in extensions && LowerString(e) == e;
    if names != [] {
      var last := names[|names| - 1];
      ScanIgnoresUpperCaseExtensions(root, names[..|names| - 1], disk, extensions);
      LowerStringIdempotent(SplitExt(last).1);
      assert Kept(root, last, disk, extensions) <==> Kept(root, last, disk, lowered);
    }
  }

  // ---------------------------------------------------------------------------
  // iter_lines
  // ---------------------------------------------------------------------------

  /** line.rstrip("\n"); StripNewlinesSpec says what it removes. */
  function StripNewlines(s: string): string
  {
    if s != [] && s[|s| - 1] == '\n' then StripNewlines(s[..|s| - 1]) else s
  }

  /** rstrip("\n") removes exactly the trailing run of newline characters:
      the result is a prefix of the line, everything after it is "\n", and it
      does not itself end in "\n". */
  lemma {:induction false} StripNewlinesSpec(s: string)
    ensures StripNewlines(s) <= s
    ensures StripNewlines(s) == [] || StripNewlines(s)[|StripNewlines(s)| - 1] != '\n'
    ensures forall i :: |StripNewlines(s)| <= i < |s| ==> s[i] == '\n'
  {
    if s != [] && s[|s| - 1] == '\n' {
      StripNewlinesSpec(s[..|s| - 1]);
    }
  }

  /** iter_lines(path); IterLinesSpec says what it yields. */
  function IterLines(path: string, disk: Disk): Result<seq<(int, string)>, ReadError>
  {
    if path !in disk then Failure(FileNotFound(path))
    else
      var lines := disk[path].lines;
      Success(seq(|lines|, i requires 0 <= i < |lines| => (i + 1, StripNewlines(lines[i]))))
  }

  /** iter_lines fails exactly when the path holds no file; otherwise it yields
      one pair per line, numbered from 1, each without its trailing newlines. */
  lemma IterLinesSpec(path: string, disk: Disk)
    ensures IterLines(path, disk).Failure? <==> path !in disk
    ensures IterLines(path, disk).Failure? ==> IterLines(path, disk).error == FileNotFound(path)
    ensures IterLines(path, disk).Success? ==> |IterLines(path, disk).value| == |disk[path].lines|
    ensures IterLines(path, disk).Success? ==> forall i :: 0 <= i < |disk[path].lines| ==>
      IterLines(path, disk).value[i].0 == i + 1 && IterLines(path, disk).value[i].1 == StripNewlines(disk[path].lines[i])
  {
  }

  // ---------------------------------------------------------------------------
  // build_index
  // ---------------------------------------------------------------------------

  /** Token tok is on line n (from 1) of file f (its position in files). */
  predicate Occurs(files: seq<FileRecord>, disk: Disk, tokenize: string -> seq<string>, tok: string, f: int, n: int)
  {
    0 <= f < |files| && files[f].path in disk && 1 <= n <= |disk[files[f].path].lines|
    && tok in tokenize(StripNewlines(disk[files[f].path].lines[n - 1]))
  }

  /** Ordering of hits by (file id, line number). */
  predicate HitLess(a: Hit, b: Hit)
  {
    a.fileId < b.fileId || (a.fileId == b.fileId && a.lineNo < b.lineNo)
  }

  predicate Ascending(hits: seq<Hit>)
  {
    forall i, j :: 0 <= i < j < |hits| ==> HitLess(hits[i], hits[j])
  }

  /** The index build_index promises: every list is non-empty, strictly
      ascending by (file, line) and holds only line hits (start = end = -1),
      and a line hit for tok is present exactly when tok is on that line. */
  ghost predicate IsLineIndex(index: Index, files: seq<FileRecord>, disk: Disk, tokenize: string -> seq<string>)
  {
    (forall tok :: tok in index ==>
      index[tok] != [] && Ascending(index[tok]) &&
      forall h :: h in index[tok] ==> h.start == -1 && h.end == -1)
    && (forall tok, f, n :: (tok in index && Hit(f, n, -1, -1) in index[tok]) <==> Occurs(files, disk, tokenize, tok, f, n))
  }

  /** Line n of file f comes before line m of file i. */
  predicate Before(f: int, n: int, i: int, m: int)
  {
    f < i || (f == i && n < m)
  }

  /** A hit list as the loop keeps it: non-empty, ascending, line hits only,
      none after line m of file i. */
  predicate HitsSoFar(hits: seq<Hit>, i: int, m: int)
  {
    hits != [] && Ascending(hits)
    && forall h :: h in hits ==> h.start == -1 && h.end == -1 && (Before(h.fileId, h.lineNo, i, m) || (h.fileId == i && h.lineNo == m))
  }

  /** The loop's invariant: every line before line m of file i is indexed, and
      of line m the tokens in done. */
  ghost predicate PartialIndex(index: Index, files: seq<FileRecord>, disk: Disk, tokenize: string -> seq<string>,
                               i: int, m: int, done: seq<string>)
  {
    (forall tok :: tok in index ==> HitsSoFar(index[tok], i, m))
    && (forall tok, f, n :: (tok in index && Hit(f, n, -1, -1) in index[tok]) <==>
          (Occurs(files, disk, tokenize, tok, f, n) && Before(f, n, i, m)) || (f == i && n == m && tok in done))
  }

  /** The any(...) test of build_index: some hit of the list is on line n of file f. */
  predicate HasLine(hits: seq<Hit>, f: int, n: int)
  {
    exists k :: 0 <= k < |hits| && hits[k].fileId == f && hits[k].lineNo == n
  }

  /** The index after build_index has handled token t of line m of file i:
      a new hit is appended unless the list already holds that line. */
  function Recorded(index: Index, t: string, i: int, m: int): (r: Index)
  {
    var hits := if t in index then index[t] else [];
    index[t := if HasLine(hits, i, m) then hits else hits + [Hit(i, m, -1, -1)]]
  }

  /** Recording token t for line m of file i keeps the invariant. */
  lemma TokenStep(index: Index, files: seq<FileRecord>, disk: Disk, tokenize: string -> seq<string>,
                  i: int, m: int, done: seq<string>, t: string)
    requires PartialIndex(index, files, disk, tokenize, i, m, done)
    ensures PartialIndex(Recorded(index, t, i, m), files, disk, tokenize, i, m, done + [t])
  {
    var old_ := if t in index then index[t] else [];
    var hits := if HasLine(old_, i, m) then old_ else old_ + [Hit(i, m, -1, -1)];
    var index' := index[t := hits];
    var h := Hit(i, m, -1, -1);
    if HasLine(old_, i, m) {
      var k :| 0 <= k < |old_| && old_[k].fileId == i && old_[k].lineNo == m;
      assert old_[k] == h;
      assert HitsSoFar(hits, i, m);
    } else {
      assert forall x :: x in old_ ==> Before(x.fileId, x.lineNo, i, m);
      assert forall x :: x in hits <==> x in old_ || x == h;
      assert HitsSoFar(hits, i, m) by {
        forall a, b | 0 <= a < b < |hits| ensures HitLess(hits[a], hits[b]) {
          if b < |old_| {
            assert HitLess(old_[a], old_[b]);
          } else {
            assert old_[a] in old_;
          }
        }
      }
    }
    assert forall tok :: tok in index' ==> HitsSoFar(index'[tok], i, m);
    forall tok, f, n
      ensures (tok in index' && Hit(f, n, -1, -1) in index'[tok]) <==>
              (Occurs(files, disk, tokenize, tok, f, n) && Before(f, n, i, m)) || (f == i && n == m && tok in done + [t])
    {
      assert tok in done + [t] <==> tok in done || tok == t;
    }
  }

  /** The index after build_index has handled the tokens ts, in order, for
      line m of file i. */
  function RecordAll(index: Index, ts: seq<string>, i: int, m: int): Index
  {
    if ts == [] then index
    else Recorded(RecordAll(index, ts[..|ts| - 1], i, m), ts[|ts| - 1], i, m)
  }

  /** Recording the tokens of a line one by one keeps the invariant. */
  lemma {:induction false} TokensStep(index: Index, files: seq<FileRecord>, disk: Disk, tokenize: string -> seq<string>,
                                      i: int, m: int, ts: seq<string>)
    requires PartialIndex(index, files, disk, tokenize, i, m, [])
    ensures PartialIndex(RecordAll(index, ts, i, m), files, disk, tokenize, i, m, ts)
  {
    if ts != [] {
      var init := ts[..|ts| - 1];
      TokensStep(index, files, disk, tokenize, i, m, init);
      TokenStep(RecordAll(index, init, i, m), files, disk, tokenize, i, m, init, ts[|ts| - 1]);
      assert init + [ts[|ts| - 1]] == ts;
    }
  }

  /** Finishing line m of file i (all its tokens recorded) moves to line m + 1. */
  lemma LineStep(index: Index, files: seq<FileRecord>, disk: Disk, tokenize: string -> seq<string>, i: int, m: int)
    requires 0 <= i < |files| && files[i].path in disk && 1 <= m <= |disk[files[i].path].lines|
    requires PartialIndex(index, files, disk, tokenize, i, m,
               tokenize(StripNewlines(disk[files[i].path].lines[m - 1])))
    ensures PartialIndex(index, files, disk, tokenize, i, m + 1, [])
  {
    forall tok | tok in index ensures HitsSoFar(index[tok], i, m + 1) {
      assert HitsSoFar(index[tok], i, m);
    }
    var tokens := tokenize(StripNewlines(disk[files[i].path].lines[m - 1]));
    forall tok, f, n
      ensures (tok in index && Hit(f, n, -1, -1) in index[tok]) <==>
              (Occurs(files, disk, tokenize, tok, f, n) && Before(f, n, i, m + 1)) || (f == i && n == m + 1 && tok in [])
    {
      assert Before(f, n, i, m + 1) <==> Before(f, n, i, m) || (f == i && n == m);
      if f == i && n == m {
        assert Occurs(files, disk, tokenize, tok, f, n) <==> tok in tokens;
      }
    }
  }

  /** Finishing the last line of file i moves to the first line of file i + 1. */
  lemma FileStep(index: Index, files: seq<FileRecord>, disk: Disk, tokenize: string -> seq<string>, i: int)
    requires 0 <= i < |files| && files[i].path in disk
    requires PartialIndex(index, files, disk, tokenize, i, |disk[files[i].path].lines| + 1, [])
    ensures PartialIndex(index, files, disk, tokenize, i + 1, 1, [])
  {
    var m := |disk[files[i].path].lines| + 1;
    forall tok | tok in index ensures HitsSoFar(index[tok], i + 1, 1) {
      assert HitsSoFar(index[tok], i, m);
    }
  }

  /** The index after build_index has handled the numbered lines ls of file f. */
  function RecordLines(index: Index, ls: seq<(int, string)>, tokenize: string -> seq<string>, f: int): Index
  {
    if ls == [] then index
    else
      var (lineNo, line) := ls[|ls| - 1];
      RecordAll(RecordLines(index, ls[..|ls| - 1], tokenize, f), tokenize(line), f, lineNo)
  }

  /** build_index's result after the first k files: reading a missing file fails. */
  function RecordFiles(files: seq<FileRecord>, disk: Disk, tokenize: string -> seq<string>, k: nat): Result<Index, ReadError>
    requires k <= |files|
  {
    if k == 0 then Success(map[])
    else
      var prev := RecordFiles(files, disk, tokenize, k - 1);
      var ls := IterLines(files[k - 1].path, disk);
      if prev.Failure? then prev
      else if ls.Failure? then Failure(ls.error)
      else Success(RecordLines(prev.value, ls.value, tokenize, k - 1))
  }

  /** Handling the first j lines of file i from the start of the file. */
  lemma {:induction false} LinesStep(index: Index, files: seq<FileRecord>, disk: Disk, tokenize: string -> seq<string>,
                                     i: int, j: nat)
    requires 0 <= i < |files| && files[i].path in disk && j <= |disk[files[i].path].lines|
    requires PartialIndex(index, files, disk, tokenize, i, 1, [])
    ensures PartialIndex(RecordLines(index, IterLines(files[i].path, disk).value[..j], tokenize, i), files, disk, tokenize, i, j + 1, [])
  {
    var ls := IterLines(files[i].path, disk).value;
    if j > 0 {
      LinesStep(index, files, disk, tokenize, i, j - 1);
      assert ls[..j][..j - 1] == ls[..j - 1];
      var start := RecordLines(index, ls[..j - 1], tokenize, i);
      var tokens := tokenize(StripNewlines(disk[files[i].path].lines[j - 1]));
      TokensStep(start, files, disk, tokenize, i, j, tokens);
      LineStep(RecordAll(start, tokens, i, j), files, disk, tokenize, i, j);
    }
  }

  /** Past the last line of file i the invariant moves to file i + 1. */
  lemma FileDone(index: Index, files: seq<FileRecord>, disk: Disk, tokenize: string -> seq<string>, i: int)
    requires 0 <= i < |files| && files[i].path in disk
    requires PartialIndex(index, files, disk, tokenize, i, 1, [])
    ensures PartialIndex(RecordLines(index, IterLines(files[i].path, disk).value, tokenize, i), files, disk, tokenize, i + 1, 1, [])
  {
    var ls := IterLines(files[i].path, disk).value;
    LinesStep(index, files, disk, tokenize, i, |ls|);
    assert ls[..|ls|] == ls;
    FileStep(RecordLines(index, ls, tokenize, i), files, disk, tokenize, i);
  }

  /** Once reading a file has failed, later files do not change the outcome. */
  lemma {:induction false} RecordFilesFailureStays(files: seq<FileRecord>, disk: Disk, tokenize: string -> seq<string>, k: nat, n: nat)
    requires k <= n <= |files| && RecordFiles(files, disk, tokenize, k).Failure?
    ensures RecordFiles(files, disk, tokenize, n) == RecordFiles(files, disk, tokenize, k)
  {
    if n > k {
      RecordFilesFailureStays(files, disk, tokenize, k, n - 1);
    }
  }

  /** After k files: failure exactly when one of them is missing, naming the
      first missing one. */
  lemma {:induction false} RecordFilesFailure(files: seq<FileRecord>, disk: Disk, tokenize: string -> seq<string>, k: nat)
    requires k <= |files|
    ensures RecordFiles(files, disk, tokenize, k).Failure? <==> exists f :: 0 <= f < k && files[f].path !in disk
    ensures RecordFiles(files, disk, tokenize, k).Failure? ==> exists f :: (0 <= f < k && files[f].path !in disk
      && RecordFiles(files, disk, tokenize, k).error == FileNotFound(files[f].path) && forall g :: 0 <= g < f ==> files[g].path in disk)
  {
    if k > 0 {
      RecordFilesFailure(files, disk, tokenize, k - 1);
      var prev := RecordFiles(files, disk, tokenize, k - 1);
      var r := RecordFiles(files, disk, tokenize, k);
      if prev.Failure? {
        assert r == prev;
        var f :| 0 <= f < k - 1 && files[f].path !in disk
          && prev.error == FileNotFound(files[f].path) && forall g :: 0 <= g < f ==> files[g].path in disk;
        assert 0 <= f < k && files[f].path !in disk;
      } else if files[k - 1].path !in disk {
        assert r == Failure(FileNotFound(files[k - 1].path));
        assert forall g :: 0 <= g < k - 1 ==> files[g].path in disk;
      } else {
        assert r.Success?;
        assert forall f :: 0 <= f < k ==> files[f].path in disk;
      }
    }
  }

  /** After k files that all exist, those files are indexed. */
  lemma {:induction false} RecordFilesSuccess(files: seq<FileRecord>, disk: Disk, tokenize: string -> seq<string>, k: nat)
    requires k <= |files|
    requires RecordFiles(files, disk, tokenize, k).Success?
    ensures PartialIndex(RecordFiles(files, disk, tokenize, k).value, files, disk, tokenize, k, 1, [])
  {
    if k > 0 {
      var prev := RecordFiles(files, disk, tokenize, k - 1);
      assert prev.Success? && files[k - 1].path in disk;
      RecordFilesSuccess(files, disk, tokenize, k - 1);
      FileDone(prev.value, files, disk, tokenize, k - 1);
    }
  }

  /** Past the last file the invariant is the line index. */
  lemma Finished(index: Index, files: seq<FileRecord>, disk: Disk, tokenize: string -> seq<string>)
    requires PartialIndex(index, files, disk, tokenize, |files|, 1, [])
    ensures IsLineIndex(index, files, disk, tokenize)
  {
    forall tok | tok in index
      ensures index[tok] != [] && Ascending(index[tok]) && forall h :: h in index[tok] ==> h.start == -1 && h.end == -1
    {
      assert HitsSoFar(index[tok], |files|, 1);
    }
  }

  /** The built index: failure exactly when some file is missing, naming the
      first missing one; otherwise the line index of the files. */
  lemma BuiltIndexSpec(files: seq<FileRecord>, disk: Disk, tokenize: string -> seq<string>)
    ensures RecordFiles(files, disk, tokenize, |files|).Failure? <==> exists f :: 0 <= f < |files| && files[f].path !in disk
    ensures RecordFiles(files, disk, tokenize, |files|).Failure? ==> exists f :: (0 <= f < |files| && files[f].path !in disk
      && RecordFiles(files, disk, tokenize, |files|).error == FileNotFound(files[f].path) && forall g :: 0 <= g < f ==> files[g].path in disk)
    ensures RecordFiles(files, disk, tokenize, |files|).Success? ==> IsLineIndex(RecordFiles(files, disk, tokenize, |files|).value, files, disk, tokenize)
  {
    RecordFilesFailure(files, disk, tokenize, |files|);
    var r := RecordFiles(files, disk, tokenize, |files|);
    if r.Success? {
      RecordFilesSuccess(files, disk, tokenize, |files|);
      Finished(r.value, files, disk, tokenize);
    }
  }

  /** The innermost loop of build_index: each token of line lineNo of file
      fileId gets a hit for that line, unless its list already has one. */
  method AddLineHits(index: Index, tokens: seq<string>, fileId: int, lineNo: int) returns (r: Index)
    ensures r == RecordAll(index, tokens, fileId, lineNo)
  {
    r := index;
    var k := 0;
    while k < |tokens|
      invariant 0 <= k <= |tokens|
      invariant r == RecordAll(index, tokens[..k], fileId, lineNo)
    {
      var token := tokens[k];
      var hits := if token in r then r[token] else [];
      if !HasLine(hits, fileId, lineNo) {
        hits := hits + [Hit(fileId, lineNo, -1, -1)];
      }
      r := r[token := hits];
      assert tokens[..k + 1][..k] == tokens[..k];
      k := k + 1;
    }
    assert tokens[..k] == tokens;
  }

  /** The middle loop of build_index: the tokens of each numbered line of
      file fileId, in order, get their hits. */
  method AddFileHits(index: Index, lines: seq<(int, string)>, cfg: Tokenizer.Config, fileId: int)
    returns (r: Index)
    ensures r == RecordLines(index, lines, LineTokenizer(cfg), fileId)
  {
    r := index;
    var j := 0;
    while j < |lines|
      invariant 0 <= j <= |lines|
      invariant r == RecordLines(index, lines[..j], LineTokenizer(cfg), fileId)
    {
      var (lineNo, line) := lines[j];
      var tokens := Tokenizer.TokenizeLine(line, cfg);
      r := AddLineHits(r, tokens, fileId, lineNo);
      assert lines[..j + 1][..j] == lines[..j];
      j := j + 1;
    }
    assert lines[..j] == lines;
  }

  /** The tokenizer build_index applies to each line: tokenize_line with the
      index's min_length, stopwords and keep_numbers. */
  function LineTokenizer(cfg: Tokenizer.Config): string -> seq<string>
  {
    line => Tokenizer.TokenizeLine(line, cfg)
  }

  /** What build_index does with one file: read its lines, then record their hits. */
  function IndexFile(index: Index, path: string, disk: Disk, tokenize: string -> seq<string>, f: int): Result<Index, ReadError>
  {
    match IterLines(path, disk)
    case Failure(e) => Failure(e)
    case Success(ls) => Success(RecordLines(index, ls, tokenize, f))
  }

  /** One more file: the index so far, stepped through that file. */
  lemma RecordFilesStep(files: seq<FileRecord>, disk: Disk, tokenize: string -> seq<string>, k: nat, index: Index)
    requires k < |files|
    requires RecordFiles(files, disk, tokenize, k) == Success(index)
    ensures RecordFiles(files, disk, tokenize, k + 1) == IndexFile(index, files[k].path, disk, tokenize, k)
  {
  }

  /** The body of build_index's outer loop for file fileId. */
  method AddFile(index: Index, path: string, disk: Disk, cfg: Tokenizer.Config, fileId: int)
    returns (r: Result<Index, ReadError>)
    ensures r == IndexFile(index, path, disk, LineTokenizer(cfg), fileId)
  {
    var lines := IterLines(path, disk);
    if lines.Failure? {
      return Failure(lines.error);
    }
    var next := AddFileHits(index, lines.value, cfg, fileId);
    return Success(next);
  }

  /** build_index(files, min_length, stopwords, keep_numbers); file ids are
      positions in files, and BuiltIndexSpec says what the result is. */
  method BuildIndex(files: seq<FileRecord>, disk: Disk, cfg: Tokenizer.Config) returns (r: Result<Index, ReadError>)
    ensures r == RecordFiles(files, disk, LineTokenizer(cfg), |files|)
  {
    var index: Index := map[];
    var fileId := 0;
    while fileId < |files|
      invariant 0 <= fileId <= |files|
      invariant RecordFiles(files, disk, LineTokenizer(cfg), fileId) == Success(index)
    {
      var next := AddFile(index, files[fileId].path, disk, cfg, fileId);
      RecordFilesStep(files, disk, LineTokenizer(cfg), fileId, index);
      if next.Failure? {
        RecordFilesFailureStays(files, disk, LineTokenizer(cfg), fileId + 1, |files|);
        return next;
      }
      index := next.value;
      fileId := fileId + 1;
    }
    return Success(index);
  }
}
