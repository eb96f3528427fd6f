/** Saving an index to a directory and loading it back: meta.json holds the caller's
    metadata plus the file list, index.jsonl.gz one JSON object per token with the hits
    grouped by file id. Both files are modelled as the JSON values they hold (a line that
    does not parse is Corrupt); a loaded file list is checked against the disk. */
module Persist {
  import opened Results
  import opened Text
  import opened Models

  /** The index format versions load_index accepts. */
  const SupportedVersions: set<string> := {"1"}

  const VersionKey := "index_format_version"
  const FilesKey := "files"
  const ValidationKey := "validation"

  // ------------------------------------------------------------------
  // The stored documents
  // ------------------------------------------------------------------

  /** One entry of meta.json's "files" list; the file type is stored by name. */
  datatype StoredFile = StoredFile(path: string, size: int, mtime: real, filetype: string)

  /** A value of meta.json's top-level object, as far as loading looks at it.
      EmptyObject is `{}`; Other is any other value (a number, null, a boolean, another
      object or list). */
  datatype MetaValue =
    | Str(text: string)
    | FileList(files: seq<StoredFile>)
    | Validation(isValid: bool, problems: seq<string>)
    | EmptyObject
    | Other

  type Meta = map<string, MetaValue>

  /** The "hits" object of one index line: str(file_id) -> line numbers, in key order. */
  type Groups = seq<(string, seq<int>)>

  /** One line of index.jsonl.gz: {"token": ..., "hits": {...}}. */
  datatype TokenEntry = TokenEntry(token: string, hits: Groups)

  /** A JSON text: either malformed or the value it parses to. */
  datatype Document<T> = Corrupt | Parsed(value: T)

  /** What an existing directory holds of meta.json and index.jsonl.gz (None: absent). */
  datatype IndexDir = IndexDir(meta: Option<Document<Meta>>, lines: Option<seq<Document<TokenEntry>>>)

  /** The directories that exist, by path. */
  type Store = map<string, IndexDir>

  /** save_index raises NotADirectoryError before writing anything. */
  datatype SaveError = NotADirectory(dir: string)

  /** Why loading failed inside its try block; each is re-raised as a RuntimeError. */
  datatype LoadFailure =
    | CorruptJson                          // json.JSONDecodeError
    | MissingVersion                       // no "index_format_version" key
    | UnsupportedVersion(version: MetaValue)
    | MalformedMeta                        // "files" missing or not a sequence of entries
    | UnknownFileType(name: string)        // FileType[name] raised KeyError
    | BadFileId(key: string)               // int(key) raised ValueError

  datatype LoadError = IndexNotFound(dir: string) | RuntimeError(cause: LoadFailure)

  /** load_index's result: the file records, the index and the metadata. */
  datatype Loaded = Loaded(files: seq<FileRecord>, index: Index, meta: Meta)

  // ------------------------------------------------------------------
  // A loop that stops at the first error
  // ------------------------------------------------------------------

  /** Threads acc through xs with step, stopping at the first Failure. */
  function Fold<A, B>(xs: seq<A>, step: (B, A) -> Result<B, LoadFailure>, init: B): Result<B, LoadFailure>
  {
    if xs == [] then Success(init)
    else match Fold(xs[..|xs| - 1], step, init)
      case Failure(e) => Failure(e)
      case Success(acc) => step(acc, xs[|xs| - 1])
  }

  /** One more element of the loop. */
  lemma FoldSnoc<A, B>(xs: seq<A>, step: (B, A) -> Result<B, LoadFailure>, init: B, k: int)
    requires 0 <= k < |xs|
    ensures Fold(xs[..k], step, init).Failure? ==> Fold(xs[..k + 1], step, init) == Fold(xs[..k], step, init)
    ensures Fold(xs[..k], step, init).Success? ==>
              Fold(xs[..k + 1], step, init) == step(Fold(xs[..k], step, init).value, xs[k])
  {
    assert xs[..k + 1][..k] == xs[..k];
  }

  /** Once the loop has failed, the rest of the input does not matter. */
  lemma {:induction false} FoldFailureStays<A, B>(xs: seq<A>, step: (B, A) -> Result<B, LoadFailure>, init: B, k: int)
    requires 0 <= k <= |xs|
    requires Fold(xs[..k], step, init).Failure?
    ensures Fold(xs, step, init) == Fold(xs[..k], step, init)
    decreases |xs| - k
  {
    if k == |xs| {
      assert xs[..k] == xs;
    } else {
      FoldSnoc(xs, step, init, k);
      FoldFailureStays(xs, step, init, k + 1);
    }
  }

  // ------------------------------------------------------------------
  // File types and the file list
  // ------------------------------------------------------------------

  /** FileType.name. */
  function FileTypeName(t: FileType): string
  {
    match t
    case TXT => "TXT"
    case LOG => "LOG"
    case PY => "PY"
    case MD => "MD"
  }

  /** FileType[name]: the member of that name, None where the lookup raises KeyError. */
  function FileTypeNamed(name: string): (r: Option<FileType>)
    ensures r.Some? ==> FileTypeName(r.value) == name
    ensures r.None? <==> forall t: FileType :: FileTypeName(t) != name
  {
    if name == "TXT" then Some(TXT)
    else if name == "LOG" then Some(LOG)
    else if name == "PY" then Some(PY)
    else if name == "MD" then Some(MD)
    else None
  }

  /** One file record as save_index stores it. */
  function StoredOf(f: FileRecord): StoredFile
  {
    StoredFile(f.path, f.size, f.mtime, FileTypeName(f.filetype))
  }

  /** meta_json["files"]: the records in order. */
  function EncodeFiles(files: seq<FileRecord>): (r: seq<StoredFile>)
    ensures |r| == |files|
  {
    if files == [] then [] else EncodeFiles(files[..|files| - 1]) + [StoredOf(files[|files| - 1])]
  }

  /** One iteration of load_index's files loop. */
  function AppendRecord(records: seq<FileRecord>, f: StoredFile): Result<seq<FileRecord>, LoadFailure>
  {
    match FileTypeNamed(f.filetype)
    case None => Failure(UnknownFileType(f.filetype))
    case Some(t) => Success(records + [FileRecord(f.path, f.size, f.mtime, t)])
  }

  /** The file records load_index rebuilds from meta.json's list. */
  function DecodeFiles(stored: seq<StoredFile>): Result<seq<FileRecord>, LoadFailure>
  {
    Fold(stored, AppendRecord, [])
  }

  /** load_index's files loop. */
  method DecodeFileRecords(stored: seq<StoredFile>) returns (r: Result<seq<FileRecord>, LoadFailure>)
    ensures r == DecodeFiles(stored)
  {
    var records: seq<FileRecord> := [];
    for k := 0 to |stored|
      invariant Fold(stored[..k], AppendRecord, []) == Success(records)
    {
      FoldSnoc(stored, AppendRecord, [], k);
      var f := stored[k];
      match FileTypeNamed(f.filetype) {
        case None =>
          FoldFailureStays(stored, AppendRecord, [], k + 1);
          return Failure(UnknownFileType(f.filetype));
        case Some(t) =>
          records := records + [FileRecord(f.path, f.size, f.mtime, t)];
      }
    }
    assert stored[..|stored|] == stored;
    return Success(records);
  }

  /** Loading fails exactly when some stored type name is not a FileType, and then it
      names the first such entry; otherwise every record keeps its stored fields. */
  lemma {:induction false} DecodeFilesSpec(stored: seq<StoredFile>)
    ensures DecodeFiles(stored).Failure? <==>
              exists i :: 0 <= i < |stored| && FileTypeNamed(stored[i].filetype).None?
    ensures DecodeFiles(stored).Failure? ==>
              exists i :: (0 <= i < |stored| && FileTypeNamed(stored[i].filetype).None?
                           && DecodeFiles(stored).error == UnknownFileType(stored[i].filetype)
                           && forall j :: 0 <= j < i ==> FileTypeNamed(stored[j].filetype).Some?)
    ensures DecodeFiles(stored).Success? ==>
              |DecodeFiles(stored).value| == |stored| &&
              forall i :: 0 <= i < |stored| ==> StoredOf(DecodeFiles(stored).value[i]) == stored[i]
  {
    if stored != [] {
      var init := stored[..|stored| - 1];
      var f := stored[|stored| - 1];
      DecodeFilesSpec(init);
      assert forall i :: 0 <= i < |init| ==> init[i] == stored[i];
      if DecodeFiles(init).Success? && FileTypeNamed(f.filetype).Some? {
        var records := DecodeFiles(init).value;
        var t := FileTypeNamed(f.filetype).value;
        assert DecodeFiles(stored).value == records + [FileRecord(f.path, f.size, f.mtime, t)];
      }
    }
  }

  lemma AppendStoredRecord(records: seq<FileRecord>, f: FileRecord)
    ensures AppendRecord(records, StoredOf(f)) == Success(records + [f])
  {
    assert FileTypeNamed(FileTypeName(f.filetype)) == Some(f.filetype);
  }

  /** Decoding one more stored record of a known type appends it. */
  lemma DecodeFilesStep(stored: seq<StoredFile>, records: seq<FileRecord>, f: FileRecord)
    requires DecodeFiles(stored) == Success(records)
    ensures DecodeFiles(stored + [StoredOf(f)]) == Success(records + [f])
  {
    var xs := stored + [StoredOf(f)];
    var n := |stored|;
    assert xs[..n] == stored;
    FoldSnoc(xs, AppendRecord, [], n);
    assert xs[..n + 1] == xs;
    AppendStoredRecord(records, f);
  }

  /** The file list survives a save and a load unchanged. */
  lemma {:induction false} FilesRoundTrip(files: seq<FileRecord>)
    ensures DecodeFiles(EncodeFiles(files)) == Success(files)
  {
    if files != [] {
      var init := files[..|files| - 1];
      var f := files[|files| - 1];
      assert EncodeFiles(files) == EncodeFiles(init) + [StoredOf(f)];
      FilesRoundTrip(init);
      DecodeFilesStep(EncodeFiles(init), init, f);
      assert init + [f] == files;
    }
  }

  // ------------------------------------------------------------------
  // The hits of one token
  // ------------------------------------------------------------------

  /** str(file_id), the key a file's line numbers are stored under. */
  function Key(fileId: int): string
  {
    IntToString(fileId)
  }

  /** Where key sits among the groups, -1 when it is not a key yet. */
  function KeyIndex(groups: Groups, key: string): (r: int)
    ensures -1 <= r < |groups|
    ensures r >= 0 ==> groups[r].0 == key
    ensures r < 0 <==> forall i :: 0 <= i < |groups| ==> groups[i].0 != key
  {
    if groups == [] then -1
    else if groups[0].0 == key then 0
    else
      var j := KeyIndex(groups[1..], key);
      if j < 0 then -1 else j + 1
  }

  /** hits.setdefault(key, []).append(lineNo) on an insertion-ordered JSON object. */
  function AddHit(groups: Groups, key: string, lineNo: int): Groups
  {
    var i := KeyIndex(groups, key);
    if i < 0 then groups + [(key, [lineNo])] else groups[i := (key, groups[i].1 + [lineNo])]
  }

  /** The "hits" object save_index builds for one token. */
  function Grouped(hits: seq<Hit>): Groups
  {
    if hits == [] then []
    else AddHit(Grouped(hits[..|hits| - 1]), Key(hits[|hits| - 1].fileId), hits[|hits| - 1].lineNo)
  }

  /** save_index's loop over one token's hits. */
  method EncodeHits(hits: seq<Hit>) returns (groups: Groups)
    ensures groups == Grouped(hits)
  {
    groups := [];
    for k := 0 to |hits|
      invariant groups == Grouped(hits[..k])
    {
      assert hits[..k + 1][..k] == hits[..k];
      groups := AddHit(groups, Key(hits[k].fileId), hits[k].lineNo);
    }
    assert hits[..|hits|] == hits;
  }

  /** Hit(file_id, line_no, -1, -1) for each stored line number. */
  function Expand(fileId: int, lineNos: seq<int>): (r: seq<Hit>)
    ensures |r| == |lineNos|
  {
    if lineNos == [] then []
    else Expand(fileId, lineNos[..|lineNos| - 1]) + [Hit(fileId, lineNos[|lineNos| - 1], -1, -1)]
  }

  /** One iteration of load_index's loop over a "hits" object. */
  function AppendGroup(hits: seq<Hit>, group: (string, seq<int>)): Result<seq<Hit>, LoadFailure>
  {
    match ParseInt(group.0)
    case None => Failure(BadFileId(group.0))
    case Some(fileId) => Success(hits + Expand(fileId, group.1))
  }

  /** The hits load_index rebuilds from one "hits" object. */
  function DecodeGroups(groups: Groups): Result<seq<Hit>, LoadFailure>
  {
    Fold(groups, AppendGroup, [])
  }

  /** load_index's nested loops over one "hits" object. */
  method DecodeHits(groups: Groups) returns (r: Result<seq<Hit>, LoadFailure>)
    ensures r == DecodeGroups(groups)
  {
    var hits: seq<Hit> := [];
    for k := 0 to |groups|
      invariant Fold(groups[..k], AppendGroup, []) == Success(hits)
    {
      FoldSnoc(groups, AppendGroup, [], k);
      var key := groups[k].0;
      var lineNos := groups[k].1;
      match ParseInt(key) {
        case None =>
          FoldFailureStays(groups, AppendGroup, [], k + 1);
          return Failure(BadFileId(key));
        case Some(fileId) =>
          ghost var before := hits;
          for j := 0 to |lineNos|
            invariant hits == before + Expand(fileId, lineNos[..j])
          {
            assert lineNos[..j + 1][..j] == lineNos[..j];
            hits := hits + [Hit(fileId, lineNos[j], -1, -1)];
          }
          assert lineNos[..|lineNos|] == lineNos;
      }
    }
    assert groups[..|groups|] == groups;
    return Success(hits);
  }

  /** The hits with their start and end positions dropped, as a load returns them. */
  function Unpositioned(hits: seq<Hit>): (r: seq<Hit>)
    ensures |r| == |hits|
  {
    if hits == [] then []
    else Unpositioned(hits[..|hits| - 1]) + [Hit(hits[|hits| - 1].fileId, hits[|hits| - 1].lineNo, -1, -1)]
  }

  predicate AllUnpositioned(hits: seq<Hit>)
  {
    forall i :: 0 <= i < |hits| ==> hits[i].start == -1 && hits[i].end == -1
  }

  /** The hits of each file form one run. */
  predicate Contiguous(hits: seq<Hit>)
  {
    forall i, j, k :: 0 <= i < j < k < |hits| && hits[i].fileId == hits[k].fileId ==> hits[j].fileId == hits[i].fileId
  }

  lemma {:induction false} UnpositionedIdentity(hits: seq<Hit>)
    requires AllUnpositioned(hits)
    ensures Unpositioned(hits) == hits
  {
    if hits != [] {
      UnpositionedIdentity(hits[..|hits| - 1]);
      assert hits[..|hits| - 1] + [hits[|hits| - 1]] == hits;
    }
  }

  /** Everything a load decodes has start == end == -1. */
  lemma {:induction false} DecodedUnpositioned(groups: Groups)
    ensures DecodeGroups(groups).Success? ==> AllUnpositioned(DecodeGroups(groups).value)
  {
    if groups != [] && DecodeGroups(groups).Success? {
      var init := groups[..|groups| - 1];
      DecodedUnpositioned(init);
      var fileId := ParseInt(groups[|groups| - 1].0).value;
      ExpandUnpositioned(fileId, groups[|groups| - 1].1);
    }
  }

  lemma {:induction false} ExpandUnpositioned(fileId: int, lineNos: seq<int>)
    ensures AllUnpositioned(Expand(fileId, lineNos))
    ensures forall i :: 0 <= i < |lineNos| ==> Expand(fileId, lineNos)[i].fileId == fileId
  {
    if lineNos != [] {
      ExpandUnpositioned(fileId, lineNos[..|lineNos| - 1]);
    }
  }

  /** Groups whose keys are distinct and each is str of some hit's file id. */
  predicate DistinctKeys(groups: Groups)
  {
    forall i, j :: 0 <= i < j < |groups| ==> groups[i].0 != groups[j].0
  }

  predicate KeysFrom(groups: Groups, hits: seq<Hit>)
  {
    forall i :: 0 <= i < |groups| ==> exists k :: 0 <= k < |hits| && groups[i].0 == Key(hits[k].fileId)
  }

  /** setdefault never creates a second key for the same file id. */
  lemma {:induction false} GroupedShape(hits: seq<Hit>)
    ensures DistinctKeys(Grouped(hits))
    ensures KeysFrom(Grouped(hits), hits)
  {
    if hits != [] {
      var init := hits[..|hits| - 1];
      var h := hits[|hits| - 1];
      GroupedShape(init);
      var g := Grouped(init);
      var key := Key(h.fileId);
      var i := KeyIndex(g, key);
      var g' := Grouped(hits);
      forall m | 0 <= m < |g'|
        ensures exists k :: 0 <= k < |hits| && g'[m].0 == Key(hits[k].fileId)
      {
        if m < |g| && g'[m].0 == g[m].0 {
          var k :| 0 <= k < |init| && g[m].0 == Key(init[k].fileId);
          assert hits[k] == init[k];
        } else {
          assert g'[m].0 == Key(hits[|hits| - 1].fileId);
        }
      }
    }
  }

  /** Appending to the last group appends one decoded hit. */
  lemma DecodeUpdateLast(groups: Groups, lineNo: int)
    requires groups != [] && DecodeGroups(groups).Success?
    ensures ParseInt(groups[|groups| - 1].0).Some?
    ensures DecodeGroups(groups[|groups| - 1 := (groups[|groups| - 1].0, groups[|groups| - 1].1 + [lineNo])]) ==
              Success(DecodeGroups(groups).value + [Hit(ParseInt(groups[|groups| - 1].0).value, lineNo, -1, -1)])
  {
    var n := |groups|;
    var g' := groups[n - 1 := (groups[n - 1].0, groups[n - 1].1 + [lineNo])];
    assert g'[..n - 1] == groups[..n - 1];
    var key := groups[n - 1].0;
    var lineNos := groups[n - 1].1;
    var before := DecodeGroups(groups[..n - 1]);
    assert before.Success?;
    var fileId := ParseInt(key).value;
    assert (lineNos + [lineNo])[..|lineNos|] == lineNos;
    assert Expand(fileId, lineNos + [lineNo]) == Expand(fileId, lineNos) + [Hit(fileId, lineNo, -1, -1)];
    assert DecodeGroups(groups) == Success(before.value + Expand(fileId, lineNos));
    assert DecodeGroups(g') == AppendGroup(before.value, g'[n - 1]);
    assert before.value + (Expand(fileId, lineNos) + [Hit(fileId, lineNo, -1, -1)]) ==
           (before.value + Expand(fileId, lineNos)) + [Hit(fileId, lineNo, -1, -1)];
  }

  /** A new key appended at the end decodes to one more hit. */
  lemma DecodeAppend(groups: Groups, key: string, fileId: int, lineNo: int)
    requires DecodeGroups(groups).Success?
    requires ParseInt(key) == Some(fileId)
    ensures DecodeGroups(groups + [(key, [lineNo])]) == Success(DecodeGroups(groups).value + [Hit(fileId, lineNo, -1, -1)])
  {
    assert (groups + [(key, [lineNo])])[..|groups|] == groups;
    assert Expand(fileId, [lineNo]) == [Hit(fileId, lineNo, -1, -1)];
  }

  /** Appending to any group adds one decoded hit to the multiset. */
  lemma {:induction false} DecodeUpdate(groups: Groups, i: int, lineNo: int)
    requires 0 <= i < |groups| && DecodeGroups(groups).Success?
    requires ParseInt(groups[i].0).Some?
    ensures DecodeGroups(groups[i := (groups[i].0, groups[i].1 + [lineNo])]).Success?
    ensures multiset(DecodeGroups(groups[i := (groups[i].0, groups[i].1 + [lineNo])]).value) ==
              multiset(DecodeGroups(groups).value) + multiset{Hit(ParseInt(groups[i].0).value, lineNo, -1, -1)}
  {
    var n := |groups|;
    if i == n - 1 {
      DecodeUpdateLast(groups, lineNo);
    } else {
      var g' := groups[i := (groups[i].0, groups[i].1 + [lineNo])];
      var init := groups[..n - 1];
      assert g'[..n - 1] == init[i := (init[i].0, init[i].1 + [lineNo])];
      assert g'[n - 1] == groups[n - 1];
      DecodeUpdate(init, i, lineNo);
    }
  }

  /** The hits round-trip as a multiset, losing only their start and end. */
  lemma {:induction false} GroupedMultiset(hits: seq<Hit>)
    ensures DecodeGroups(Grouped(hits)).Success?
    ensures multiset(DecodeGroups(Grouped(hits)).value) == multiset(Unpositioned(hits))
  {
    if hits != [] {
      var init := hits[..|hits| - 1];
      var h := hits[|hits| - 1];
      GroupedMultiset(init);
      var g := Grouped(init);
      var key := Key(h.fileId);
      IntStringRoundTrip(h.fileId);
      var i := KeyIndex(g, key);
      assert Unpositioned(hits) == Unpositioned(init) + [Hit(h.fileId, h.lineNo, -1, -1)];
      if i < 0 {
        DecodeAppend(g, key, h.fileId, h.lineNo);
      } else {
        DecodeUpdate(g, i, h.lineNo);
      }
    }
  }

  lemma {:induction false} ContiguousPrefix(hits: seq<Hit>)
    requires Contiguous(hits) && hits != []
    ensures Contiguous(hits[..|hits| - 1])
  {
    var init := hits[..|hits| - 1];
    forall i, j, k | 0 <= i < j < k < |init| && init[i].fileId == init[k].fileId
      ensures init[j].fileId == init[i].fileId
    {
      assert hits[i] == init[i] && hits[j] == init[j] && hits[k] == init[k];
    }
  }

  /** In a contiguous list, a hit whose file differs from the one before it belongs to a
      file no earlier hit had, so its key is not among the earlier groups. */
  lemma {:induction false} NewFileKeyAbsent(hits: seq<Hit>)
    requires Contiguous(hits) && hits != []
    requires |hits| == 1 || hits[|hits| - 2].fileId != hits[|hits| - 1].fileId
    ensures KeyIndex(Grouped(hits[..|hits| - 1]), Key(hits[|hits| - 1].fileId)) < 0
  {
    var n := |hits|;
    var init := hits[..n - 1];
    var h := hits[n - 1];
    GroupedShape(init);
    var g := Grouped(init);
    forall m | 0 <= m < |g|
      ensures g[m].0 != Key(h.fileId)
    {
      var k :| 0 <= k < |init| && g[m].0 == Key(init[k].fileId);
      IntToStringInjective(init[k].fileId, h.fileId);
      assert hits[k] == init[k];
    }
  }

  /** A hit for the same file as the one before it joins the last group. */
  lemma {:induction false} SameFileLastGroup(hits: seq<Hit>)
    requires |hits| >= 2 && hits[|hits| - 2].fileId == hits[|hits| - 1].fileId
    requires |Grouped(hits[..|hits| - 1])| > 0
    requires Grouped(hits[..|hits| - 1])[|Grouped(hits[..|hits| - 1])| - 1].0 == Key(hits[|hits| - 2].fileId)
    ensures KeyIndex(Grouped(hits[..|hits| - 1]), Key(hits[|hits| - 1].fileId)) == |Grouped(hits[..|hits| - 1])| - 1
  {
    var g := Grouped(hits[..|hits| - 1]);
    GroupedShape(hits[..|hits| - 1]);
    LastKeyIndex(g, Key(hits[|hits| - 1].fileId));
  }

  /** With distinct keys, the last group's key is found at the last position. */
  lemma LastKeyIndex(g: Groups, key: string)
    requires DistinctKeys(g) && g != [] && g[|g| - 1].0 == key
    ensures KeyIndex(g, key) == |g| - 1
  {
    var i := KeyIndex(g, key);
    assert i >= 0;
  }

  /** In a contiguous list the last group belongs to the last hit's file. */
  lemma {:induction false} ContiguousLastKey(hits: seq<Hit>)
    requires Contiguous(hits) && hits != []
    ensures |Grouped(hits)| > 0 && Grouped(hits)[|Grouped(hits)| - 1].0 == Key(hits[|hits| - 1].fileId)
  {
    var n := |hits|;
    var init := hits[..n - 1];
    var h := hits[n - 1];
    var g := Grouped(init);
    var key := Key(h.fileId);
    if n >= 2 && hits[n - 2].fileId == h.fileId {
      ContiguousPrefix(hits);
      ContiguousLastKey(init);
      assert init[n - 2] == hits[n - 2];
      SameFileLastGroup(hits);
      assert Grouped(hits) == g[|g| - 1 := (key, g[|g| - 1].1 + [h.lineNo])];
    } else {
      NewFileKeyAbsent(hits);
      assert Grouped(hits) == g + [(key, [h.lineNo])];
    }
  }

  /** When each file's hits form one run, the decoded hits come back in order. */
  lemma {:induction false} GroupedContiguous(hits: seq<Hit>)
    requires Contiguous(hits)
    ensures DecodeGroups(Grouped(hits)) == Success(Unpositioned(hits))
  {
    if hits != [] {
      var n := |hits|;
      var init := hits[..n - 1];
      var h := hits[n - 1];
      ContiguousPrefix(hits);
      GroupedContiguous(init);
      var g := Grouped(init);
      var key := Key(h.fileId);
      IntStringRoundTrip(h.fileId);
      assert Unpositioned(hits) == Unpositioned(init) + [Hit(h.fileId, h.lineNo, -1, -1)];
      if n >= 2 && hits[n - 2].fileId == h.fileId {
        ContiguousLastKey(init);
        assert init[n - 2] == hits[n - 2];
        SameFileLastGroup(hits);
        assert Grouped(hits) == g[|g| - 1 := (key, g[|g| - 1].1 + [h.lineNo])];
        DecodeUpdateLast(g, h.lineNo);
      } else {
        NewFileKeyAbsent(hits);
        assert Grouped(hits) == g + [(key, [h.lineNo])];
        DecodeAppend(g, key, h.fileId, h.lineNo);
      }
    }
  }

  /** The hits of file f, in their order. */
  function OfFile(hits: seq<Hit>, f: int): (r: seq<Hit>)
    ensures forall i :: 0 <= i < |r| ==> r[i] in hits && r[i].fileId == f
  {
    if hits == [] then []
    else
      var init := hits[..|hits| - 1];
      var h := hits[|hits| - 1];
      var r := OfFile(init, f) + (if h.fileId == f then [h] else []);
      assert forall i :: 0 <= i < |OfFile(init, f)| ==> r[i] in init;
      r
  }

  lemma {:induction false} OfFileAppend(a: seq<Hit>, b: seq<Hit>, f: int)
    ensures OfFile(a + b, f) == OfFile(a, f) + OfFile(b, f)
    decreases |b|
  {
    if b == [] {
      assert a + b == a;
    } else {
      var b' := b[..|b| - 1];
      assert (a + b)[..|a + b| - 1] == a + b';
      OfFileAppend(a, b', f);
    }
  }

  lemma {:induction false} OfFileExpand(fileId: int, lineNos: seq<int>, f: int)
    ensures OfFile(Expand(fileId, lineNos), f) == if fileId == f then Expand(fileId, lineNos) else []
    decreases |lineNos|
  {
    if lineNos != [] {
      var e := Expand(fileId, lineNos);
      assert e[..|e| - 1] == Expand(fileId, lineNos[..|lineNos| - 1]);
      OfFileExpand(fileId, lineNos[..|lineNos| - 1], f);
    }
  }

  /** Appending to group i adds one hit to its file's hits, at their end, when no later
      group decodes to the same file. */
  lemma {:induction false} DecodeUpdateOfFile(groups: Groups, i: int, lineNo: int, f: int)
    requires 0 <= i < |groups| && DecodeGroups(groups).Success?
    requires ParseInt(groups[i].0).Some?
    requires forall j :: i < j < |groups| ==> ParseInt(groups[j].0) != ParseInt(groups[i].0)
    ensures DecodeGroups(groups[i := (groups[i].0, groups[i].1 + [lineNo])]).Success?
    ensures var fileId := ParseInt(groups[i].0).value;
      OfFile(DecodeGroups(groups[i := (groups[i].0, groups[i].1 + [lineNo])]).value, f) ==
        OfFile(DecodeGroups(groups).value, f) + (if fileId == f then [Hit(fileId, lineNo, -1, -1)] else [])
    decreases |groups|
  {
    var n := |groups|;
    var fileId := ParseInt(groups[i].0).value;
    var extra := if fileId == f then [Hit(fileId, lineNo, -1, -1)] else [];
    var g' := groups[i := (groups[i].0, groups[i].1 + [lineNo])];
    if i == n - 1 {
      DecodeUpdateLast(groups, lineNo);
      OfFileAppend(DecodeGroups(groups).value, [Hit(fileId, lineNo, -1, -1)], f);
      assert [Hit(fileId, lineNo, -1, -1)] == [] + [Hit(fileId, lineNo, -1, -1)];
    } else {
      var init := groups[..n - 1];
      var last := groups[n - 1];
      assert g'[..n - 1] == init[i := (init[i].0, init[i].1 + [lineNo])];
      assert g'[n - 1] == last;
      DecodeUpdateOfFile(init, i, lineNo, f);
      var before := DecodeGroups(init).value;
      var after := DecodeGroups(g'[..n - 1]).value;
      var lastId := ParseInt(last.0).value;
      assert DecodeGroups(groups) == Success(before + Expand(lastId, last.1));
      assert DecodeGroups(g') == Success(after + Expand(lastId, last.1));
      OfFileAfterGroup(before, after, lastId, last.1, f, extra);
    }
  }

  /** A group of another file adds nothing to the hits of f. */
  lemma OfFileOtherGroup(hits: seq<Hit>, fileId: int, lineNos: seq<int>, f: int)
    requires fileId != f
    ensures OfFile(hits + Expand(fileId, lineNos), f) == OfFile(hits, f)
  {
    OfFileAppend(hits, Expand(fileId, lineNos), f);
    OfFileExpand(fileId, lineNos, f);
    assert OfFile(hits, f) + [] == OfFile(hits, f);
  }

  /** A later group of another file keeps the hit added for f at the end of its hits. */
  lemma OfFileAfterGroup(before: seq<Hit>, after: seq<Hit>, lastId: int, lineNos: seq<int>, f: int, extra: seq<Hit>)
    requires OfFile(after, f) == OfFile(before, f) + extra
    requires extra == [] || lastId != f
    ensures OfFile(after + Expand(lastId, lineNos), f) == OfFile(before + Expand(lastId, lineNos), f) + extra
  {
    if extra == [] {
      var e := Expand(lastId, lineNos);
      OfFileAppend(before, e, f);
      OfFileAppend(after, e, f);
      assert OfFile(before, f) + [] == OfFile(before, f);
      assert OfFile(before + e, f) + [] == OfFile(before + e, f);
    } else {
      OfFileOtherGroup(before, lastId, lineNos, f);
      OfFileOtherGroup(after, lastId, lineNos, f);
    }
  }

  /** A group key parses back to the file id it was made from. */
  lemma GroupKeysParse(hits: seq<Hit>, j: int)
    requires 0 <= j < |Grouped(hits)|
    ensures ParseInt(Grouped(hits)[j].0).Some?
    ensures Key(ParseInt(Grouped(hits)[j].0).value) == Grouped(hits)[j].0
  {
    GroupedShape(hits);
    var k :| 0 <= k < |hits| && Grouped(hits)[j].0 == Key(hits[k].fileId);
    IntStringRoundTrip(hits[k].fileId);
  }

  /** Whatever the order of the hits, each file's hits come back in their saved order. */
  lemma {:induction false} GroupedPerFile(hits: seq<Hit>, f: int)
    ensures DecodeGroups(Grouped(hits)).Success?
    ensures OfFile(DecodeGroups(Grouped(hits)).value, f) == OfFile(Unpositioned(hits), f)
  {
    if hits != [] {
      var init := hits[..|hits| - 1];
      var h := hits[|hits| - 1];
      var h' := Hit(h.fileId, h.lineNo, -1, -1);
      GroupedPerFile(init, f);
      var g := Grouped(init);
      var key := Key(h.fileId);
      IntStringRoundTrip(h.fileId);
      var i := KeyIndex(g, key);
      var u := Unpositioned(hits);
      assert u[..|u| - 1] == Unpositioned(init) && u[|u| - 1] == h';
      if i < 0 {
        DecodeAppend(g, key, h.fileId, h.lineNo);
        var d := DecodeGroups(g).value + [h'];
        assert d[..|d| - 1] == DecodeGroups(g).value;
      } else {
        GroupedShape(init);
        forall j | i < j < |g|
          ensures ParseInt(g[j].0) != ParseInt(g[i].0)
        {
          GroupKeysParse(init, j);
          GroupKeysParse(init, i);
        }
        DecodeUpdateOfFile(g, i, h.lineNo, f);
      }
    }
  }

  /** One token's hits after a save and a load: the same hits up to order, with start and
      end replaced by -1; each file's hits in their saved order; in the same order overall
      when each file's hits are contiguous; exactly the saved hits when they are also
      unpositioned, as the indexer builds them. */
  lemma HitsRoundTrip(hits: seq<Hit>)
    ensures DecodeGroups(Grouped(hits)).Success?
    ensures multiset(DecodeGroups(Grouped(hits)).value) == multiset(Unpositioned(hits))
    ensures Contiguous(hits) ==> DecodeGroups(Grouped(hits)).value == Unpositioned(hits)
    ensures Contiguous(hits) && AllUnpositioned(hits) ==> DecodeGroups(Grouped(hits)).value == hits
    ensures forall f :: OfFile(DecodeGroups(Grouped(hits)).value, f) == OfFile(Unpositioned(hits), f)
  {
    GroupedMultiset(hits);
    forall f ensures OfFile(DecodeGroups(Grouped(hits)).value, f) == OfFile(Unpositioned(hits), f) {
      GroupedPerFile(hits, f);
    }
    if Contiguous(hits) {
      GroupedContiguous(hits);
      if AllUnpositioned(hits) {
        UnpositionedIdentity(hits);
      }
    }
  }

  // ------------------------------------------------------------------
  // The whole index
  // ------------------------------------------------------------------

  /** The lines save_index writes, one per token, each with its token's grouped hits. */
  predicate EncodesIndex(entries: seq<TokenEntry>, index: Index)
  {
    && (forall i, j :: 0 <= i < j < |entries| ==> entries[i].token != entries[j].token)
    && (forall i :: 0 <= i < |entries| ==>
          entries[i].token in index && entries[i].hits == Grouped(index[entries[i].token]))
    && (forall t :: t in index ==> exists i :: 0 <= i < |entries| && entries[i].token == t)
  }

  /** Midway through save_index's token loop: the lines written so far encode the tokens
      outside rest, each once. */
  predicate EncodedSoFar(entries: seq<TokenEntry>, rest: set<string>, index: Index)
  {
    && rest <= index.Keys
    && (forall i, j :: 0 <= i < j < |entries| ==> entries[i].token != entries[j].token)
    && (forall i :: 0 <= i < |entries| ==>
          entries[i].token in index && entries[i].token !in rest &&
          entries[i].hits == Grouped(index[entries[i].token]))
    && (forall t :: t in index ==> t in rest || exists i :: 0 <= i < |entries| && entries[i].token == t)
  }

  lemma EncodedStep(entries: seq<TokenEntry>, rest: set<string>, index: Index, token: string)
    requires EncodedSoFar(entries, rest, index) && token in rest
    ensures EncodedSoFar(entries + [TokenEntry(token, Grouped(index[token]))], rest - {token}, index)
  {
    var entries' := entries + [TokenEntry(token, Grouped(index[token]))];
    forall t | t in index && t !in rest - {token}
      ensures exists i :: 0 <= i < |entries'| && entries'[i].token == t
    {
      if t == token {
        assert entries'[|entries|].token == t;
      } else {
        var i :| 0 <= i < |entries| && entries[i].token == t;
        assert entries'[i].token == t;
      }
    }
  }

  /** save_index's loop over index.items(); the model leaves the order of tokens open. */
  method EncodeIndex(index: Index) returns (entries: seq<TokenEntry>)
    ensures EncodesIndex(entries, index)
  {
    entries := [];
    var rest := index.Keys;
    while rest != {}
      invariant EncodedSoFar(entries, rest, index)
      decreases |rest|
    {
      ghost var member := NonEmptyHasMember(rest);
      var token :| token in rest;
      var groups := EncodeHits(index[token]);
      EncodedStep(entries, rest, index, token);
      entries := entries + [TokenEntry(token, groups)];
      rest := rest - {token};
    }
  }

  /** Each line as a parsed JSON document. */
  function Documents(entries: seq<TokenEntry>): (r: seq<Document<TokenEntry>>)
    ensures |r| == |entries|
  {
    if entries == [] then [] else Documents(entries[..|entries| - 1]) + [Parsed(entries[|entries| - 1])]
  }

  /** One iteration of load_index's loop over the lines of index.jsonl.gz. */
  function AddEntry(index: Index, line: Document<TokenEntry>): Result<Index, LoadFailure>
  {
    match line
    case Corrupt => Failure(CorruptJson)
    case Parsed(entry) =>
      match DecodeGroups(entry.hits)
      case Failure(e) => Failure(e)
      case Success(hits) => Success(index[entry.token := hits])
  }

  /** The index load_index rebuilds from index.jsonl.gz. */
  function DecodeLines(lines: seq<Document<TokenEntry>>): Result<Index, LoadFailure>
  {
    Fold(lines, AddEntry, map[])
  }

  /** load_index's loop over the lines of index.jsonl.gz. */
  method DecodeIndex(lines: seq<Document<TokenEntry>>) returns (r: Result<Index, LoadFailure>)
    ensures r == DecodeLines(lines)
  {
    var index: Index := map[];
    for k := 0 to |lines|
      invariant Fold(lines[..k], AddEntry, map[]) == Success(index)
    {
      FoldSnoc(lines, AddEntry, map[], k);
      match lines[k] {
        case Corrupt =>
          FoldFailureStays(lines, AddEntry, map[], k + 1);
          return Failure(CorruptJson);
        case Parsed(entry) =>
          var hits := DecodeHits(entry.hits);
          if hits.Failure? {
            FoldFailureStays(lines, AddEntry, map[], k + 1);
            return Failure(hits.error);
          }
          index := index[entry.token := hits.value];
      }
    }
    assert lines[..|lines|] == lines;
    return Success(index);
  }

  /** Every hit a load yields has start == end == -1. */
  lemma {:induction false} DecodeLinesUnpositioned(lines: seq<Document<TokenEntry>>)
    ensures DecodeLines(lines).Success? ==>
              forall t :: t in DecodeLines(lines).value ==> AllUnpositioned(DecodeLines(lines).value[t])
  {
    if lines != [] && DecodeLines(lines).Success? {
      DecodeLinesUnpositioned(lines[..|lines| - 1]);
      DecodedUnpositioned(lines[|lines| - 1].value.hits);
    }
  }

  lemma DocumentsSnoc(entries: seq<TokenEntry>)
    requires entries != []
    ensures Documents(entries)[..|entries| - 1] == Documents(entries[..|entries| - 1])
    ensures Documents(entries)[|entries| - 1] == Parsed(entries[|entries| - 1])
  {
  }

  /** Reading back the saved lines gives each token of the index its decoded hits. */
  lemma {:induction false} DecodeEntries(entries: seq<TokenEntry>, index: Index)
    requires forall i :: 0 <= i < |entries| ==>
               entries[i].token in index && entries[i].hits == Grouped(index[entries[i].token])
    ensures DecodeLines(Documents(entries)).Success?
    ensures forall i :: 0 <= i < |entries| ==> entries[i].token in DecodeLines(Documents(entries)).value
    ensures forall t :: t in DecodeLines(Documents(entries)).value ==>
              t in index && DecodeGroups(Grouped(index[t])) == Success(DecodeLines(Documents(entries)).value[t])
  {
    if entries != [] {
      var n := |entries|;
      var init := entries[..n - 1];
      var e := entries[n - 1];
      assert forall i :: 0 <= i < n - 1 ==> init[i] == entries[i];
      DecodeEntries(init, index);
      var lines := Documents(entries);
      DocumentsSnoc(entries);
      var m := DecodeLines(Documents(init)).value;
      GroupedMultiset(index[e.token]);
      var hits := DecodeGroups(e.hits).value;
      assert AddEntry(m, Parsed(e)) == Success(m[e.token := hits]);
      assert DecodeLines(lines) == AddEntry(m, lines[n - 1]);
    }
  }

  // ------------------------------------------------------------------
  // save_index
  // ------------------------------------------------------------------

  /** The metadata save_index writes: the caller's, with "files" replaced. */
  function SavedMeta(meta: Meta, files: seq<FileRecord>): (r: Meta)
    ensures r.Keys == meta.Keys + {FilesKey}
    ensures forall key :: key in meta && key != FilesKey ==> r[key] == meta[key]
  {
    meta[FilesKey := FileList(EncodeFiles(files))]
  }

  /** The directory after a save. */
  function SavedDir(meta: Meta, files: seq<FileRecord>, entries: seq<TokenEntry>): IndexDir
  {
    IndexDir(Some(Parsed(SavedMeta(meta, files))), Some(Documents(entries)))
  }

  /** save_index: refuses a path that is not a directory, otherwise writes meta.json and
      one line per token into it and leaves every other directory as it was. The
      caller's meta is a value, so the copy save_index extends never reaches it. */
  method SaveIndex(files: seq<FileRecord>, index: Index, outDir: string, meta: Meta, store: Store)
    returns (r: Result<Store, SaveError>)
    ensures outDir !in store <==> r.Failure?
    ensures r.Failure? ==> r.error == NotADirectory(outDir)
    ensures r.Success? ==>
              exists entries :: EncodesIndex(entries, index) && r.value == store[outDir := SavedDir(meta, files, entries)]
  {
    if outDir !in store {
      return Failure(NotADirectory(outDir));
    }
    var entries := EncodeIndex(index);
    r := Success(store[outDir := SavedDir(meta, files, entries)]);
  }

  // ------------------------------------------------------------------
  // validate_index
  // ------------------------------------------------------------------

  /** The file is still there with the recorded size and modification time. */
  predicate Unchanged(f: FileRecord, disk: Disk)
  {
    f.path in disk && disk[f.path].size == f.size && disk[f.path].mtime == f.mtime
  }

  /** What validate_index reports about one record: a missing file only as missing. */
  function FileProblems(f: FileRecord, disk: Disk): (r: seq<string>)
    ensures |r| <= 2
    ensures f.path !in disk ==> |r| == 1
    ensures r == [] <==> Unchanged(f, disk)
  {
    if f.path !in disk then ["Missing file: " + f.path]
    else
      (if disk[f.path].size != f.size then ["File size changed: " + f.path] else [])
      + (if disk[f.path].mtime != f.mtime then ["File modified time changed: " + f.path] else [])
  }

  /** All problems, file by file in order. */
  function Problems(files: seq<FileRecord>, disk: Disk): seq<string>
  {
    if files == [] then [] else Problems(files[..|files| - 1], disk) + FileProblems(files[|files| - 1], disk)
  }

  /** validate_index: the problems and whether there are none. */
  method ValidateIndex(files: seq<FileRecord>, disk: Disk) returns (isValid: bool, problems: seq<string>)
    ensures problems == Problems(files, disk)
    ensures isValid <==> forall i :: 0 <= i < |files| ==> Unchanged(files[i], disk)
  {
    problems := [];
    for k := 0 to |files|
      invariant problems == Problems(files[..k], disk)
    {
      assert files[..k + 1][..k] == files[..k];
      var f := files[k];
      if f.path !in disk {
        problems := problems + ["Missing file: " + f.path];
        continue;
      }
      var before := problems;
      if disk[f.path].size != f.size {
        problems := problems + ["File size changed: " + f.path];
      }
      if disk[f.path].mtime != f.mtime {
        problems := problems + ["File modified time changed: " + f.path];
      }
      assert problems == before + FileProblems(f, disk);
    }
    assert files[..|files|] == files;
    ValidIffUnchanged(files, disk);
    isValid := |problems| == 0;
  }

  /** No problems exactly when every file is unchanged; at most two per file. */
  lemma {:induction false} ValidIffUnchanged(files: seq<FileRecord>, disk: Disk)
    ensures Problems(files, disk) == [] <==> forall i :: 0 <= i < |files| ==> Unchanged(files[i], disk)
    ensures |Problems(files, disk)| <= 2 * |files|
  {
    if files != [] {
      var init := files[..|files| - 1];
      ValidIffUnchanged(init, disk);
      assert forall i :: 0 <= i < |init| ==> init[i] == files[i];
    }
  }

  // ------------------------------------------------------------------
  // load_index
  // ------------------------------------------------------------------

  /** The entries `for f in meta_dict["files"]` visits, or None when that loop raises:
      a list gives its entries, while "" and {} give none and so raise nothing. Iterating a
      number, null or a boolean raises TypeError; so does indexing, with "filetype", the
      characters of a non-empty string or the keys of a non-empty object. */
  function FileEntries(v: MetaValue): (r: Option<seq<StoredFile>>)
    ensures r.Some? <==> v.FileList? || v == Str("") || v.EmptyObject?
    ensures v.FileList? ==> r == Some(v.files)
    ensures r.Some? && !v.FileList? ==> r == Some([])
  {
    match v
    case FileList(files) => Some(files)
    case EmptyObject => Some([])
    case Str(text) => if text == "" then Some([]) else None
    case _ => None
  }

  /** What load_index returns or raises, in the order it checks. */
  function LoadSpec(inDir: string, store: Store, disk: Disk): (r: Result<Loaded, LoadError>)
    ensures r == Failure(IndexNotFound(inDir)) <==>
              inDir !in store || store[inDir].meta.None? || store[inDir].lines.None?
    ensures r.Success? ==>
              VersionKey in r.value.meta && r.value.meta[VersionKey].Str? &&
              r.value.meta[VersionKey].text in SupportedVersions
    ensures r.Success? ==>
              ValidationKey in r.value.meta &&
              r.value.meta[ValidationKey] == Validation(Problems(r.value.files, disk) == [], Problems(r.value.files, disk))
  {
    if inDir !in store || store[inDir].meta.None? || store[inDir].lines.None? then
      Failure(IndexNotFound(inDir))
    else match store[inDir].meta.value
      case Corrupt => Failure(RuntimeError(CorruptJson))
      case Parsed(meta) =>
        if VersionKey !in meta then Failure(RuntimeError(MissingVersion))
        else if !(meta[VersionKey].Str? && meta[VersionKey].text in SupportedVersions) then
          Failure(RuntimeError(UnsupportedVersion(meta[VersionKey])))
        else if FilesKey !in meta || FileEntries(meta[FilesKey]).None? then Failure(RuntimeError(MalformedMeta))
        else match DecodeFiles(FileEntries(meta[FilesKey]).value)
          case Failure(e) => Failure(RuntimeError(e))
          case Success(files) =>
            var problems := Problems(files, disk);
            match DecodeLines(store[inDir].lines.value)
            case Failure(e) => Failure(RuntimeError(e))
            case Success(index) =>
              Success(Loaded(files, index, meta[ValidationKey := Validation(problems == [], problems)]))
  }

  /** load_index. */
  method LoadIndex(inDir: string, store: Store, disk: Disk) returns (r: Result<Loaded, LoadError>)
    ensures r == LoadSpec(inDir, store, disk)
  {
    if inDir !in store || store[inDir].meta.None? || store[inDir].lines.None? {
      return Failure(IndexNotFound(inDir));
    }
    var dir := store[inDir];
    if dir.meta.value.Corrupt? {
      return Failure(RuntimeError(CorruptJson));
    }
    var meta := dir.meta.value.value;
    if VersionKey !in meta {
      return Failure(RuntimeError(MissingVersion));
    }
    if !(meta[VersionKey].Str? && meta[VersionKey].text in SupportedVersions) {
      return Failure(RuntimeError(UnsupportedVersion(meta[VersionKey])));
    }
    if FilesKey !in meta || FileEntries(meta[FilesKey]).None? {
      return Failure(RuntimeError(MalformedMeta));
    }
    var files := DecodeFileRecords(FileEntries(meta[FilesKey]).value);
    if files.Failure? {
      return Failure(RuntimeError(files.error));
    }
    var isValid, problems := ValidateIndex(files.value, disk);
    ValidIffUnchanged(files.value, disk);
    meta := meta[ValidationKey := Validation(isValid, problems)];
    var index := DecodeIndex(dir.lines.value);
    if index.Failure? {
      return Failure(RuntimeError(index.error));
    }
    return Success(Loaded(files.value, index.value, meta));
  }

  /** A "files" value of "" or {} makes the records loop run zero times: the load gives no
      records and a validation entry with no problems. */
  lemma EmptyFilesLoad(inDir: string, store: Store, disk: Disk)
    requires inDir in store && store[inDir].meta.Some? && store[inDir].lines.Some?
    requires store[inDir].meta.value.Parsed?
    requires var meta := store[inDir].meta.value.value;
      VersionKey in meta && meta[VersionKey] == Str("1") &&
      FilesKey in meta && (meta[FilesKey] == Str("") || meta[FilesKey] == EmptyObject)
    requires DecodeLines(store[inDir].lines.value).Success?
    ensures LoadSpec(inDir, store, disk) ==
              Success(Loaded([], DecodeLines(store[inDir].lines.value).value,
                             store[inDir].meta.value.value[ValidationKey := Validation(true, [])]))
  {
    assert DecodeFiles([]) == Success([]);
  }

  /** Every hit load_index returns has start == end == -1. */
  lemma LoadedUnpositioned(inDir: string, store: Store, disk: Disk)
    ensures LoadSpec(inDir, store, disk).Success? ==>
              forall t :: t in LoadSpec(inDir, store, disk).value.index ==>
                AllUnpositioned(LoadSpec(inDir, store, disk).value.index[t])
  {
    if LoadSpec(inDir, store, disk).Success? {
      DecodeLinesUnpositioned(store[inDir].lines.value);
    }
  }

  /** The saved lines read back as an index with the same tokens, each with its hits
      round-tripped as HitsRoundTrip describes. */
  lemma IndexRoundTrip(entries: seq<TokenEntry>, index: Index)
    requires EncodesIndex(entries, index)
    ensures DecodeLines(Documents(entries)).Success?
    ensures DecodeLines(Documents(entries)).value.Keys == index.Keys
    ensures forall t :: t in index ==>
              multiset(DecodeLines(Documents(entries)).value[t]) == multiset(Unpositioned(index[t])) &&
              (Contiguous(index[t]) && AllUnpositioned(index[t]) ==> DecodeLines(Documents(entries)).value[t] == index[t])
  {
    DecodeEntries(entries, index);
    var decoded := DecodeLines(Documents(entries)).value;
    assert decoded.Keys == index.Keys by {
      forall t | t in index
        ensures t in decoded
      {
        var i :| 0 <= i < |entries| && entries[i].token == t;
      }
    }
    forall t | t in index
      ensures multiset(decoded[t]) == multiset(Unpositioned(index[t]))
      ensures Contiguous(index[t]) && AllUnpositioned(index[t]) ==> decoded[t] == index[t]
    {
      TokenRoundTrip(index[t], decoded[t]);
    }
  }

  /** One token of IndexRoundTrip. */
  lemma TokenRoundTrip(hits: seq<Hit>, decoded: seq<Hit>)
    requires DecodeGroups(Grouped(hits)) == Success(decoded)
    ensures multiset(decoded) == multiset(Unpositioned(hits))
    ensures Contiguous(hits) && AllUnpositioned(hits) ==> decoded == hits
  {
    HitsRoundTrip(hits);
  }

  /** Loading a directory just saved with a supported version reaches the index lines
      and returns the saved file records and metadata. */
  lemma LoadOfSaved(dir: string, store: Store, meta: Meta, files: seq<FileRecord>,
                    entries: seq<TokenEntry>, disk: Disk)
    requires dir in store
    requires VersionKey in meta && meta[VersionKey] == Str("1")
    requires DecodeLines(Documents(entries)).Success?
    ensures LoadSpec(dir, store[dir := SavedDir(meta, files, entries)], disk) ==
              Success(Loaded(files, DecodeLines(Documents(entries)).value,
                             SavedMeta(meta, files)[ValidationKey := Validation(Problems(files, disk) == [], Problems(files, disk))]))
  {
    var saved := SavedMeta(meta, files);
    assert VersionKey != FilesKey;
    assert saved[VersionKey] == Str("1");
    assert "1" in SupportedVersions;
    assert saved[FilesKey] == FileList(EncodeFiles(files));
    FilesRoundTrip(files);
  }

  /** A save followed by a load, for metadata carrying a supported version: the same file
      records, the same tokens, each token's hits up to order with start and end dropped
      (exactly, when the hits are contiguous by file and unpositioned), and the saved
      metadata plus the validation verdict. */
  lemma SaveThenLoad(files: seq<FileRecord>, index: Index, dir: string, meta: Meta, store: Store,
                     entries: seq<TokenEntry>, disk: Disk)
    requires dir in store
    requires VersionKey in meta && meta[VersionKey] == Str("1")
    requires EncodesIndex(entries, index)
    ensures LoadSpec(dir, store[dir := SavedDir(meta, files, entries)], disk).Success?
    ensures var loaded := LoadSpec(dir, store[dir := SavedDir(meta, files, entries)], disk).value;
            && loaded.files == files
            && loaded.index.Keys == index.Keys
            && (forall t :: t in index ==>
                  multiset(loaded.index[t]) == multiset(Unpositioned(index[t])) &&
                  (Contiguous(index[t]) && AllUnpositioned(index[t]) ==> loaded.index[t] == index[t]))
            && loaded.meta == SavedMeta(meta, files)[ValidationKey := Validation(Problems(files, disk) == [], Problems(files, disk))]
  {
    IndexRoundTrip(entries, index);
    LoadOfSaved(dir, store, meta, files, entries, disk);
  }
}
