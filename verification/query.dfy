/** The query engine: AND search over the line index, exact substring search over the
    files, and the TF-IDF score that ranks AND results. */
module Query {
  import opened Results
  import opened Text
  import opened Models
  import Tokenizer
  import Snippets

  const DefaultLimit: int := 50

  /** tokenize_query: a query goes through the very tokenizer the index was built with. */
  function TokenizeQuery(query: string, cfg: Tokenizer.Config): (r: seq<string>)
    ensures Distinct(r)
    ensures forall k :: 0 <= k < |r| ==>
      r[k] != [] && |r[k]| >= cfg.minLength && r[k] !in Tokenizer.StopSet(cfg.stopwords)
  {
    Tokenizer.TokenizeLine(query, cfg)
  }

  // ---------------------------------------------------------------------------
  // TF-IDF. Only the integer parts (document frequency and hit count) are exact;
  // the square root and logarithm are floating point and stay uninterpreted.
  // ---------------------------------------------------------------------------

  /** math.sqrt and math.log, left uninterpreted. */
  datatype Floats = Floats(sqrt: real -> real, log: real -> real)

  /** The ids of the files the hits lie in. */
  function FileIds(hits: seq<Hit>): set<int> {
    set h | h in hits :: h.fileId
  }

  /** Distinct file ids never outnumber the hits, and only no hits give no files. */
  lemma {:induction false} FileIdsBound(hits: seq<Hit>)
    ensures |FileIds(hits)| <= |hits|
    ensures FileIds(hits) == {} <==> hits == []
  {
    if hits != [] {
      var t := hits[..|hits| - 1];
      FileIdsBound(t);
      assert hits == t + [hits[|hits| - 1]];
      assert FileIds(hits) == FileIds(t) + {hits[|hits| - 1].fileId};
      assert hits[|hits| - 1].fileId in FileIds(hits);
    }
  }

  /** The df of _idf: the number of distinct files the token occurs in; 0 when absent. */
  function DocFreq(token: string, index: Index): (df: nat)
    ensures token !in index ==> df == 0
    ensures token in index ==> df <= |index[token]| && (df == 0 <==> index[token] == [])
  {
    if token !in index then 0
    else
      FileIdsBound(index[token]);
      |FileIds(index[token])|
  }

  /** How many of the hits lie in the file. */
  function CountIn(hits: seq<Hit>, fileId: int): (n: nat)
    ensures n <= |hits|
    ensures n > 0 <==> fileId in FileIds(hits)
  {
    if hits == [] then 0
    else
      var t := hits[..|hits| - 1];
      var h := hits[|hits| - 1];
      assert hits == t + [h];
      assert FileIds(hits) == FileIds(t) + {h.fileId};
      CountIn(t, fileId) + (if h.fileId == fileId then 1 else 0)
  }

  /** The base of _tf: the number of the token's hits in the file; 0 when absent. */
  function TermHits(token: string, fileId: int, index: Index): (n: nat)
    ensures token !in index ==> n == 0
    ensures token in index ==> n <= |index[token]| && (n > 0 <==> fileId in FileIds(index[token]))
  {
    if token !in index then 0 else CountIn(index[token], fileId)
  }

  /** _idf: log((N + 1) / (df + 1)) + 1, and 0 for a token the index lacks. */
  function Idf(token: string, index: Index, totalDocs: int, fl: Floats): real {
    if token !in index then 0.0
    else fl.log((totalDocs + 1) as real / (DocFreq(token, index) + 1) as real) + 1.0
  }

  /** _tf: the square root of the hit count, and 0 for a token the index lacks. */
  function Tf(token: string, fileId: int, index: Index, fl: Floats): real {
    if token !in index then 0.0 else fl.sqrt(TermHits(token, fileId, index) as real)
  }

  /** set(query_tokens): the tokens without repeats, in order of first occurrence. */
  function Dedup(s: seq<string>): (r: seq<string>)
    ensures Elements(r) == Elements(s)
    ensures Distinct(r)
    ensures |r| <= |s|
  {
    if s == [] then []
    else
      var t := s[..|s| - 1];
      var x := s[|s| - 1];
      var d := Dedup(t);
      ElementsSnoc(t, x);
      assert s == t + [x];
      if x in Elements(t) then d
      else
        ElementsSnoc(d, x);
        d + [x]
  }

  function SumScores(tokens: seq<string>, fileId: int, index: Index, totalDocs: int, fl: Floats): real {
    if tokens == [] then 0.0
    else
      var t := tokens[|tokens| - 1];
      SumScores(tokens[..|tokens| - 1], fileId, index, totalDocs, fl) + Tf(t, fileId, index, fl) * Idf(t, index, totalDocs, fl)
  }

  /** _tfidf_score_for_file: the sum of tf * idf over the distinct query tokens. */
  function Score(fileId: int, queryTokens: seq<string>, index: Index, totalDocs: int, fl: Floats): real {
    var distinct := Dedup(queryTokens);
    if |distinct| == 0 then 0.0 else SumScores(distinct, fileId, index, totalDocs, fl)
  }

  /** A token the index lacks contributes nothing to a score. */
  lemma AbsentTokenScoresZero(token: string, fileId: int, index: Index, totalDocs: int, fl: Floats)
    requires token !in index
    ensures Tf(token, fileId, index, fl) * Idf(token, index, totalDocs, fl) == 0.0
  {
  }

  /** Repeating a query token leaves the score unchanged. */
  lemma {:induction false} ScoreIgnoresRepeats(fileId: int, queryTokens: seq<string>, token: string, index: Index, totalDocs: int, fl: Floats)
    requires token in queryTokens
    ensures Score(fileId, queryTokens + [token], index, totalDocs, fl) == Score(fileId, queryTokens, index, totalDocs, fl)
  {
    var s := queryTokens + [token];
    assert s[..|s| - 1] == queryTokens;
    assert token in Elements(queryTokens);
    assert Dedup(s) == Dedup(queryTokens);
  }

  // ---------------------------------------------------------------------------
  // Ranking: list.sort with a key, then results[:limit]
  // ---------------------------------------------------------------------------

  /** a may come before b: for AND results by (-score, -matches_count, path), for
      exact results by (-matches_count, path). */
  predicate RankedBefore(a: SearchResult, b: SearchResult, byScore: bool) {
    if byScore && a.score != b.score then a.score > b.score
    else if a.matchesCount != b.matchesCount then a.matchesCount > b.matchesCount
    else a.path == b.path || LexLess(a.path, b.path)
  }

  lemma RankedTotal(a: SearchResult, b: SearchResult, byScore: bool)
    ensures RankedBefore(a, b, byScore) || RankedBefore(b, a, byScore)
  {
    LexLessTotal(a.path, b.path);
  }

  lemma RankedTransitive(a: SearchResult, b: SearchResult, c: SearchResult, byScore: bool)
    requires RankedBefore(a, b, byScore) && RankedBefore(b, c, byScore)
    ensures RankedBefore(a, c, byScore)
  {
    if LexLess(a.path, b.path) && LexLess(b.path, c.path) {
      LexLessTransitive(a.path, b.path, c.path);
    }
    LexLessAsymmetric(a.path, b.path);
    LexLessAsymmetric(b.path, c.path);
    LexLessIrreflexive(a.path);
  }

  predicate Ranked(s: seq<SearchResult>, byScore: bool) {
    forall i, j :: 0 <= i < j < |s| ==> RankedBefore(s[i], s[j], byScore)
  }

  /** Places x before the first entry it may precede (so equal keys keep their order). */
  function Insert(x: SearchResult, s: seq<SearchResult>, byScore: bool): (r: seq<SearchResult>)
    ensures multiset(r) == multiset(s) + multiset{x}
  {
    if s == [] then [x]
    else if RankedBefore(x, s[0], byScore) then [x] + s
    else
      assert s == [s[0]] + s[1..];
      [s[0]] + Insert(x, s[1..], byScore)
  }

  lemma {:induction false} InsertRanked(x: SearchResult, s: seq<SearchResult>, byScore: bool)
    requires Ranked(s, byScore)
    ensures Ranked(Insert(x, s, byScore), byScore)
  {
    if s == [] {
    } else if RankedBefore(x, s[0], byScore) {
      var r := [x] + s;
      forall j | 1 <= j < |r|
        ensures RankedBefore(r[0], r[j], byScore)
      {
        if j > 1 {
          RankedTransitive(x, s[0], s[j - 1], byScore);
        }
      }
    } else {
      RankedTotal(x, s[0], byScore);
      var tail := Insert(x, s[1..], byScore);
      InsertRanked(x, s[1..], byScore);
      HeadBeforeInsert(x, s, byScore);
      assert Insert(x, s, byScore) == [s[0]] + tail;
    }
  }

  /** The head of a ranked list still comes first once x, which it may precede, is
      inserted into its tail. */
  lemma HeadBeforeInsert(x: SearchResult, s: seq<SearchResult>, byScore: bool)
    requires Ranked(s, byScore) && s != [] && RankedBefore(s[0], x, byScore)
    ensures forall j :: 0 <= j < |Insert(x, s[1..], byScore)| ==> RankedBefore(s[0], Insert(x, s[1..], byScore)[j], byScore)
  {
    var tail := Insert(x, s[1..], byScore);
    forall j | 0 <= j < |tail|
      ensures RankedBefore(s[0], tail[j], byScore)
    {
      assert tail[j] in multiset(tail);
      assert tail[j] in multiset(s[1..]) || tail[j] == x;
      if tail[j] != x {
        var k :| 0 <= k < |s[1..]| && s[1..][k] == tail[j];
        assert s[k + 1] == tail[j];
      }
    }
  }

  /** list.sort: a stable insertion sort. */
  function Sort(s: seq<SearchResult>, byScore: bool): (r: seq<SearchResult>)
    ensures multiset(r) == multiset(s)
  {
    if s == [] then []
    else
      assert s == [s[0]] + s[1..];
      Insert(s[0], Sort(s[1..], byScore), byScore)
  }

  lemma {:induction false} SortRanked(s: seq<SearchResult>, byScore: bool)
    ensures Ranked(Sort(s, byScore), byScore)
  {
    if s != [] {
      SortRanked(s[1..], byScore);
      InsertRanked(s[0], Sort(s[1..], byScore), byScore);
    }
  }

  /** The ranked list cut to limit (results[:limit]). */
  function Rank(r: Result<seq<SearchResult>, ReadError>, byScore: bool, limit: int): Result<seq<SearchResult>, ReadError> {
    match r
    case Failure(e) => Failure(e)
    case Success(rs) => Success(PySlicePrefix(Sort(rs, byScore), limit))
  }

  /** What Rank keeps: a ranked prefix of the sorted results, at most limit of them. */
  lemma RankSpec(rs: seq<SearchResult>, byScore: bool, limit: int)
    ensures var v := PySlicePrefix(Sort(rs, byScore), limit);
      && Ranked(v, byScore)
      && (limit >= 0 ==> |v| == if limit <= |rs| then limit else |rs|)
      && forall x :: x in v ==> x in rs
  {
    var sorted := Sort(rs, byScore);
    SortRanked(rs, byScore);
    var v := PySlicePrefix(sorted, limit);
    assert |sorted| == |multiset(sorted)| == |multiset(rs)| == |rs|;
    forall x | x in v
      ensures x in rs
    {
      assert x in sorted;
      assert x in multiset(sorted);
    }
  }

  // ---------------------------------------------------------------------------
  // Exact search
  // ---------------------------------------------------------------------------

  /** The number of lines containing the text, each counted once. */
  function ExactLineCount(lines: seq<string>, queryText: string): (n: nat)
    ensures n <= |lines|
  {
    if lines == [] then 0
    else (if Contains(lines[0], queryText) then 1 else 0) + ExactLineCount(lines[1..], queryText)
  }

  /** The count is the number of exact snippets the file would give without a cap. */
  lemma {:induction false} ExactLineCountIsMatches(lines: seq<string>, queryText: string, maxLen: int)
    ensures ExactLineCount(lines, queryText) == |Snippets.Matches(lines, Snippets.ExactPick(queryText, maxLen))|
  {
    if lines != [] {
      ExactLineCountIsMatches(lines[1..], queryText, maxLen);
      assert Snippets.ExactPick(queryText, maxLen)(lines[0]) == Snippets.ExactOf(lines[0], queryText, maxLen);
    }
  }

  /** _count_exact_in_file: opening a missing file fails; otherwise the line count. */
  method CountExactInFile(path: string, disk: Disk, queryText: string) returns (r: Result<int, ReadError>)
    ensures path !in disk <==> r == Failure(FileNotFound(path))
    ensures path in disk ==> r == Success(ExactLineCount(disk[path].lines, queryText))
  {
    if path !in disk {
      return Failure(FileNotFound(path));
    }
    var lines := disk[path].lines;
    var total := 0;
    var k := 0;
    while k < |lines|
      invariant 0 <= k <= |lines|
      invariant total + ExactLineCount(lines[k..], queryText) == ExactLineCount(lines, queryText)
    {
      assert lines[k..][0] == lines[k] && lines[k..][1..] == lines[k + 1..];
      if Contains(lines[k], queryText) {
        total := total + 1;
      }
      k := k + 1;
    }
    assert lines[k..] == [];
    return Success(total);
  }

  /** One file of search_exact: nothing for a file without matches; otherwise its
      count as both matches_count and score, with its exact snippets. */
  function ExactResultFor(file: FileRecord, disk: Disk, queryText: string): Result<Option<SearchResult>, ReadError> {
    if file.path !in disk then Failure(FileNotFound(file.path))
    else
      var lines := disk[file.path].lines;
      var count := ExactLineCount(lines, queryText);
      if count == 0 then Success(None)
      else
        var snippets := Snippets.Collect(lines, Snippets.ExactPick(queryText, Snippets.DefaultMaxLen), Snippets.DefaultExactMaxSnippets, []);
        Success(Some(SearchResult(file.path, count, count as real, snippets)))
  }

  /** The unsorted results of the files loop; the first missing file stops it. */
  function ExactResults(files: seq<FileRecord>, disk: Disk, queryText: string): Result<seq<SearchResult>, ReadError> {
    if files == [] then Success([])
    else
      var prev := ExactResults(files[..|files| - 1], disk, queryText);
      var here := ExactResultFor(files[|files| - 1], disk, queryText);
      if prev.Failure? then prev
      else if here.Failure? then Failure(here.error)
      else if here.value.None? then prev
      else Success(prev.value + [here.value.value])
  }

  /** Once a prefix of the files fails, so does the whole list, with the same error. */
  lemma {:induction false} ExactResultsFailureStays(files: seq<FileRecord>, disk: Disk, queryText: string, k: int)
    requires 0 <= k <= |files|
    requires ExactResults(files[..k], disk, queryText).Failure?
    ensures ExactResults(files, disk, queryText) == ExactResults(files[..k], disk, queryText)
    decreases |files| - k
  {
    if k < |files| {
      var next := files[..k + 1];
      assert next[..k] == files[..k];
      assert ExactResults(next, disk, queryText) == ExactResults(files[..k], disk, queryText);
      ExactResultsFailureStays(files, disk, queryText, k + 1);
    } else {
      assert files[..k] == files;
    }
  }

  /** The body of search_exact's files loop for one file. */
  method ExactResultOf(file: FileRecord, disk: Disk, queryText: string) returns (r: Result<Option<SearchResult>, ReadError>)
    ensures r == ExactResultFor(file, disk, queryText)
  {
    var count := CountExactInFile(file.path, disk, queryText);
    if count.Failure? {
      return Failure(count.error);
    }
    if count.value == 0 {
      return Success(None);
    }
    var snippets := Snippets.MakeExactSnippets(file.path, disk, queryText, Snippets.DefaultExactMaxSnippets, Snippets.DefaultMaxLen);
    assert snippets.Success?;
    return Success(Some(SearchResult(file.path, count.value, count.value as real, snippets.value)));
  }

  /** One turn of the files loop, at file k. */
  lemma ExactResultsStep(files: seq<FileRecord>, disk: Disk, queryText: string, k: int)
    requires 0 <= k < |files|
    ensures ExactResults(files[..k + 1], disk, queryText) ==
      var prev := ExactResults(files[..k], disk, queryText);
      var here := ExactResultFor(files[k], disk, queryText);
      if prev.Failure? then prev
      else if here.Failure? then Failure(here.error)
      else if here.value.None? then prev
      else Success(prev.value + [here.value.value])
  {
    assert files[..k + 1][..k] == files[..k];
  }

  /** search_exact: a blank query gives nothing; otherwise the files' results, ranked
      by matches_count and path and cut to limit. */
  method SearchExact(queryText: string, files: seq<FileRecord>, disk: Disk, limit: int)
    returns (r: Result<seq<SearchResult>, ReadError>)
    ensures Strip(queryText) == [] ==> r == Success([])
    ensures Strip(queryText) != [] ==> r == Rank(ExactResults(files, disk, queryText), false, limit)
  {
    if Strip(queryText) == [] {
      return Success([]);
    }
    var results: seq<SearchResult> := [];
    var k := 0;
    while k < |files|
      invariant 0 <= k <= |files|
      invariant ExactResults(files[..k], disk, queryText) == Success(results)
    {
      var here := ExactResultOf(files[k], disk, queryText);
      ExactResultsStep(files, disk, queryText, k);
      if here.Failure? {
        ExactResultsFailureStays(files, disk, queryText, k + 1);
        return Failure(here.error);
      }
      if here.value.Some? {
        results := results + [here.value.value];
      }
      k := k + 1;
    }
    assert files[..k] == files;
    return Success(PySlicePrefix(Sort(results, false), limit));
  }

  /** What the exact search returns on success: each result is the entry ExactResultFor
      makes for one of the files, and every file with at least one matching line has one. */
  lemma {:induction false} ExactResultsSpec(files: seq<FileRecord>, disk: Disk, queryText: string)
    ensures var r := ExactResults(files, disk, queryText);
      r.Success? ==> forall x :: x in r.value ==> exists k :: 0 <= k < |files| && ExactResultFor(files[k], disk, queryText) == Success(Some(x))
    ensures var r := ExactResults(files, disk, queryText);
      r.Success? ==> forall k :: 0 <= k < |files| && files[k].path in disk && ExactLineCount(disk[files[k].path].lines, queryText) > 0 ==>
        exists x :: x in r.value && x.path == files[k].path
  {
    ExactResultsSound(files, disk, queryText);
    ExactResultsComplete(files, disk, queryText);
  }

  /** Every result is the entry of some file. */
  lemma {:induction false} ExactResultsSound(files: seq<FileRecord>, disk: Disk, queryText: string)
    ensures var r := ExactResults(files, disk, queryText);
      r.Success? ==> forall x :: x in r.value ==> exists k :: 0 <= k < |files| && ExactResultFor(files[k], disk, queryText) == Success(Some(x))
  {
    if files != [] {
      var init := files[..|files| - 1];
      ExactResultsSound(init, disk, queryText);
      var r := ExactResults(files, disk, queryText);
      if r.Success? {
        var prev := ExactResults(init, disk, queryText);
        assert prev.Success?;
        forall x | x in r.value
          ensures exists k :: 0 <= k < |files| && ExactResultFor(files[k], disk, queryText) == Success(Some(x))
        {
          if x in prev.value {
            var k :| 0 <= k < |init| && ExactResultFor(init[k], disk, queryText) == Success(Some(x));
            assert files[k] == init[k];
          } else {
            assert ExactResultFor(files[|files| - 1], disk, queryText) == Success(Some(x));
          }
        }
      }
    }
  }

  /** Every file on disk with a matching line has an entry. */
  lemma {:induction false} ExactResultsComplete(files: seq<FileRecord>, disk: Disk, queryText: string)
    ensures var r := ExactResults(files, disk, queryText);
      r.Success? ==> forall k :: 0 <= k < |files| && files[k].path in disk && ExactLineCount(disk[files[k].path].lines, queryText) > 0 ==>
        exists x :: x in r.value && x.path == files[k].path
  {
    if files != [] {
      var init := files[..|files| - 1];
      ExactResultsComplete(init, disk, queryText);
      var r := ExactResults(files, disk, queryText);
      if r.Success? {
        var prev := ExactResults(init, disk, queryText);
        var last := files[|files| - 1];
        assert prev.Success?;
        forall k | 0 <= k < |files| && files[k].path in disk && ExactLineCount(disk[files[k].path].lines, queryText) > 0
          ensures exists x :: x in r.value && x.path == files[k].path
        {
          if k < |init| {
            assert files[k] == init[k];
            var x :| x in prev.value && x.path == init[k].path;
            assert x in r.value;
          } else {
            var x := ExactResultFor(last, disk, queryText).value.value;
            assert x in r.value;
          }
        }
      }
    }
  }


  /** search_exact's answer: ranked by matches_count then path, at most limit entries,
      each a file with matching lines, scored by its count, with at most three snippets
      of at most 180 characters. */
  lemma SearchExactSpec(queryText: string, files: seq<FileRecord>, disk: Disk, limit: int)
    ensures var r := Rank(ExactResults(files, disk, queryText), false, limit);
      r.Success? ==>
        && Ranked(r.value, false)
        && (limit >= 0 ==> |r.value| <= limit)
        && forall x :: x in r.value ==>
             && x.matchesCount >= 1 && x.score == x.matchesCount as real
             && |x.snippets| <= 3
             && (forall j :: 0 <= j < |x.snippets| ==> |x.snippets[j]| <= 180)
             && exists k :: (0 <= k < |files| && files[k].path == x.path && x.path in disk
                  && x.matchesCount == ExactLineCount(disk[x.path].lines, queryText))
  {
    var rs := ExactResults(files, disk, queryText);
    if rs.Success? {
      RankSpec(rs.value, false, limit);
      ExactResultsSpec(files, disk, queryText);
      var v := PySlicePrefix(Sort(rs.value, false), limit);
      forall x | x in v
        ensures && x.matchesCount >= 1 && x.score == x.matchesCount as real
             && |x.snippets| <= 3
             && (forall j :: 0 <= j < |x.snippets| ==> |x.snippets[j]| <= 180)
             && exists k :: (0 <= k < |files| && files[k].path == x.path && x.path in disk
                  && x.matchesCount == ExactLineCount(disk[x.path].lines, queryText))
      {
        assert x in rs.value;
        var k :| 0 <= k < |files| && ExactResultFor(files[k], disk, queryText) == Success(Some(x));
        var lines := disk[x.path].lines;
        Snippets.ExactSnippetsSpec(lines, queryText, Snippets.DefaultExactMaxSnippets, Snippets.DefaultMaxLen);
      }
    }
  }

  // ---------------------------------------------------------------------------
  // AND search
  // ---------------------------------------------------------------------------

  /** Every hit of the index names an entry of files (as an index built from them does). */
  predicate ValidIds(index: Index, fileCount: int) {
    forall tok, h :: tok in index && h in index[tok] ==> 0 <= h.fileId < fileCount
  }

  /** Some query token is absent from the index or has no hits. */
  predicate AnyMissing(tokens: seq<string>, index: Index) {
    exists k :: 0 <= k < |tokens| && (tokens[k] !in index || index[tokens[k]] == [])
  }

  /** The files that hold every query token. */
  function CommonFiles(tokens: seq<string>, index: Index): set<int>
    requires tokens != [] && !AnyMissing(tokens, index)
  {
    assert tokens[0] in index;
    set id | id in FileIds(index[tokens[0]]) && forall k :: 0 <= k < |tokens| ==> id in FileIds(index[tokens[k]])
  }

  /** The token loop: each token's set of file ids, or None at the first token the index
      lacks or holds no hits for. */
  method TokenFileSets(tokens: seq<string>, index: Index) returns (r: Option<seq<set<int>>>)
    ensures r.None? <==> AnyMissing(tokens, index)
    ensures r.Some? ==> |r.value| == |tokens|
    ensures r.Some? ==> forall k :: 0 <= k < |tokens| ==> tokens[k] in index && r.value[k] == FileIds(index[tokens[k]])
  {
    var sets: seq<set<int>> := [];
    var k := 0;
    while k < |tokens|
      invariant 0 <= k <= |tokens| && |sets| == k
      invariant forall j :: 0 <= j < k ==> tokens[j] in index && index[tokens[j]] != [] && sets[j] == FileIds(index[tokens[j]])
    {
      var tok := tokens[k];
      if tok !in index || index[tok] == [] {
        return None;
      }
      sets := sets + [FileIds(index[tok])];
      k := k + 1;
    }
    return Some(sets);
  }

  /** set.intersection(*sets). */
  function IntersectAll(sets: seq<set<int>>): (r: set<int>)
    requires |sets| >= 1
    ensures r <= sets[0]
  {
    if |sets| == 1 then sets[0] else IntersectAll(sets[..|sets| - 1]) * sets[|sets| - 1]
  }

  lemma {:induction false} IntersectAllMembers(sets: seq<set<int>>, x: int)
    requires |sets| >= 1
    ensures x in IntersectAll(sets) <==> forall k :: 0 <= k < |sets| ==> x in sets[k]
  {
    if |sets| > 1 {
      var init := sets[..|sets| - 1];
      IntersectAllMembers(init, x);
      assert forall k :: 0 <= k < |init| ==> init[k] == sets[k];
    }
  }

  /** Intersecting the token loop's sets gives exactly the files holding every token. */
  lemma IntersectionIsCommonFiles(tokens: seq<string>, index: Index, sets: seq<set<int>>)
    requires tokens != [] && !AnyMissing(tokens, index)
    requires |sets| == |tokens| && forall k :: 0 <= k < |tokens| ==> tokens[k] in index && sets[k] == FileIds(index[tokens[k]])
    ensures IntersectAll(sets) == CommonFiles(tokens, index)
  {
    forall x
      ensures x in IntersectAll(sets) <==> x in CommonFiles(tokens, index)
    {
      IntersectAllMembers(sets, x);
    }
  }

  /** The distinct line numbers among the hits that lie in the file. */
  function LineSet(hits: seq<Hit>, fileId: int): set<int> {
    set h | h in hits && h.fileId == fileId :: h.lineNo
  }

  lemma LineSetSnoc(hits: seq<Hit>, h: Hit, fileId: int)
    ensures LineSet(hits + [h], fileId) == LineSet(hits, fileId) + (if h.fileId == fileId then {h.lineNo} else {})
  {
    assert forall g :: g in hits + [h] <==> g in hits || g == h;
  }

  /** The inner loop of matches_count: one token's hits, each line of the file counted once. */
  method DistinctLines(hits: seq<Hit>, fileId: int) returns (n: int)
    ensures n == |LineSet(hits, fileId)|
  {
    var used: set<int> := {};
    n := 0;
    var k := 0;
    while k < |hits|
      invariant 0 <= k <= |hits|
      invariant used == LineSet(hits[..k], fileId) && n == |used|
    {
      var h := hits[k];
      assert LineSet(hits[..k + 1], fileId) == used + (if h.fileId == fileId then {h.lineNo} else {}) by {
        assert hits[..k + 1] == hits[..k] + [h];
        LineSetSnoc(hits[..k], h, fileId);
      }
      if h.fileId == fileId && h.lineNo !in used {
        n := n + 1;
        used := used + {h.lineNo};
      }
      k := k + 1;
    }
    assert hits[..k] == hits;
  }

  /** matches_count: over the query tokens, the number of distinct lines of the file
      holding each. */
  function MatchesCount(tokens: seq<string>, index: Index, fileId: int): int {
    if tokens == [] then 0
    else
      var t := tokens[|tokens| - 1];
      MatchesCount(tokens[..|tokens| - 1], index, fileId) + (if t in index then |LineSet(index[t], fileId)| else 0)
  }

  method MatchesCountOf(tokens: seq<string>, index: Index, fileId: int) returns (n: int)
    requires forall k :: 0 <= k < |tokens| ==> tokens[k] in index
    ensures n == MatchesCount(tokens, index, fileId)
  {
    n := 0;
    var k := 0;
    while k < |tokens|
      invariant 0 <= k <= |tokens|
      invariant n == MatchesCount(tokens[..k], index, fileId)
    {
      var lines := DistinctLines(index[tokens[k]], fileId);
      assert tokens[..k + 1][..k] == tokens[..k];
      n := n + lines;
      k := k + 1;
    }
    assert tokens[..k] == tokens;
  }

  /** A file holding token t has at least one line for it. */
  lemma LineSetNonEmpty(hits: seq<Hit>, fileId: int)
    requires fileId in FileIds(hits)
    ensures |LineSet(hits, fileId)| >= 1
  {
    var h :| h in hits && h.fileId == fileId;
    assert h.lineNo in LineSet(hits, fileId);
  }

  /** A file holding every token has a matches_count of at least the number of tokens. */
  lemma {:induction false} MatchesCountAtLeastTokens(tokens: seq<string>, index: Index, fileId: int)
    requires forall k :: 0 <= k < |tokens| ==> tokens[k] in index && fileId in FileIds(index[tokens[k]])
    ensures MatchesCount(tokens, index, fileId) >= |tokens|
  {
    if tokens != [] {
      var init := tokens[..|tokens| - 1];
      assert forall k :: 0 <= k < |init| ==> init[k] == tokens[k];
      MatchesCountAtLeastTokens(init, index, fileId);
      LineSetNonEmpty(index[tokens[|tokens| - 1]], fileId);
    }
  }

  /** A list holding every member of s once, in some order. */
  predicate IsEnumeration(ids: seq<int>, s: set<int>) {
    Distinct(ids) && Elements(ids) == s
  }

  /** list(common_file_ids): the set's members in an order the model leaves open. */
  method ListOf(s: set<int>) returns (ids: seq<int>)
    ensures IsEnumeration(ids, s)
  {
    ids := [];
    var rest := s;
    while rest != {}
      invariant rest <= s && Distinct(ids) && Elements(ids) == s - rest
      decreases |rest|
    {
      ghost var member := NonEmptyHasMember(rest);
      var x :| x in rest;
      ElementsSnoc(ids, x);
      ids := ids + [x];
      rest := rest - {x};
    }
  }

  /** One file of search_and: its path, matches_count, score and snippets; reading the
      snippets fails when the file is missing. */
  function AndResultFor(fileId: int, tokens: seq<string>, files: seq<FileRecord>, index: Index, disk: Disk,
                        cfg: Tokenizer.Config, fl: Floats): Result<SearchResult, ReadError>
    requires 0 <= fileId < |files|
  {
    var path := files[fileId].path;
    if path !in disk then Failure(FileNotFound(path))
    else
      var pick := Snippets.SnippetPick(Elements(tokens), Snippets.DefaultMaxLen, cfg);
      var snippets := Snippets.Collect(disk[path].lines, pick, Snippets.DefaultMaxSnippets, []);
      Success(SearchResult(path, MatchesCount(tokens, index, fileId), Score(fileId, tokens, index, |files|, fl), snippets))
  }

  /** AndResultFor as a function of the file id alone. */
  function AndResultFn(tokens: seq<string>, files: seq<FileRecord>, index: Index, disk: Disk,
                       cfg: Tokenizer.Config, fl: Floats): int --> Result<SearchResult, ReadError> {
    fileId requires 0 <= fileId < |files| => AndResultFor(fileId, tokens, files, index, disk, cfg, fl)
  }

  /** The unsorted results of the loop over the listed file ids, each made by resultFor;
      the first failure stops it. */
  function Gather(ids: seq<int>, resultFor: int --> Result<SearchResult, ReadError>): Result<seq<SearchResult>, ReadError>
    requires forall k :: 0 <= k < |ids| ==> resultFor.requires(ids[k])
  {
    if ids == [] then Success([])
    else
      var prev := Gather(ids[..|ids| - 1], resultFor);
      var here := resultFor(ids[|ids| - 1]);
      if prev.Failure? then prev
      else if here.Failure? then Failure(here.error)
      else Success(prev.value + [here.value])
  }

  lemma {:induction false} GatherFailureStays(ids: seq<int>, resultFor: int --> Result<SearchResult, ReadError>, k: int)
    requires forall j :: 0 <= j < |ids| ==> resultFor.requires(ids[j])
    requires 0 <= k <= |ids|
    requires Gather(ids[..k], resultFor).Failure?
    ensures Gather(ids, resultFor) == Gather(ids[..k], resultFor)
    decreases |ids| - k
  {
    if k < |ids| {
      var next := ids[..k + 1];
      assert next[..k] == ids[..k];
      assert Gather(next, resultFor) == Gather(ids[..k], resultFor);
      GatherFailureStays(ids, resultFor, k + 1);
    } else {
      assert ids[..k] == ids;
    }
  }

  /** One more file listed: its result is appended unless an earlier file failed. */
  lemma GatherSnoc(ids: seq<int>, resultFor: int --> Result<SearchResult, ReadError>, k: int)
    requires forall j :: 0 <= j < |ids| ==> resultFor.requires(ids[j])
    requires 0 <= k < |ids|
    ensures var prev := Gather(ids[..k], resultFor);
      var here := resultFor(ids[k]);
      Gather(ids[..k + 1], resultFor) ==
        if prev.Failure? then prev else if here.Failure? then Failure(here.error) else Success(prev.value + [here.value])
  {
    assert ids[..k + 1][..k] == ids[..k];
  }

  /** The loop succeeds exactly when every listed file's result does, and then holds
      those results in listing order; otherwise it reports the first failure. */
  lemma {:induction false} GatherSpec(ids: seq<int>, resultFor: int --> Result<SearchResult, ReadError>)
    requires forall k :: 0 <= k < |ids| ==> resultFor.requires(ids[k])
    ensures Gather(ids, resultFor).Success? <==> forall k :: 0 <= k < |ids| ==> resultFor(ids[k]).Success?
    ensures Gather(ids, resultFor).Success? ==> |Gather(ids, resultFor).value| == |ids|
    ensures Gather(ids, resultFor).Success? ==>
      forall k :: 0 <= k < |ids| ==> resultFor(ids[k]) == Success(Gather(ids, resultFor).value[k])
    ensures Gather(ids, resultFor).Failure? ==>
      exists k :: 0 <= k < |ids| && resultFor(ids[k]) == Failure(Gather(ids, resultFor).error)
  {
    if ids != [] {
      var init := ids[..|ids| - 1];
      assert forall k :: 0 <= k < |init| ==> init[k] == ids[k];
      GatherSpec(init, resultFor);
    }
  }

  /** The body of the loop over the common files: one file's result. */
  method FileResult(fileId: int, tokens: seq<string>, files: seq<FileRecord>, index: Index, disk: Disk,
                    cfg: Tokenizer.Config, fl: Floats) returns (r: Result<SearchResult, ReadError>)
    requires 0 <= fileId < |files|
    requires forall k :: 0 <= k < |tokens| ==> tokens[k] in index
    ensures r == AndResultFor(fileId, tokens, files, index, disk, cfg, fl)
  {
    var path := files[fileId].path;
    var matchesCount := MatchesCountOf(tokens, index, fileId);
    var score := Score(fileId, tokens, index, |files|, fl);
    var snippets := Snippets.MakeSnippets(path, disk, tokens, Snippets.DefaultMaxSnippets, Snippets.DefaultMaxLen, cfg);
    if snippets.Failure? {
      return Failure(snippets.error);
    }
    return Success(SearchResult(path, matchesCount, score, snippets.value));
  }

  /** The files of common_file_ids name entries of files. */
  lemma CommonFilesInRange(tokens: seq<string>, index: Index, fileCount: int)
    requires ValidIds(index, fileCount)
    requires tokens != [] && !AnyMissing(tokens, index)
    ensures forall id :: id in CommonFiles(tokens, index) ==> 0 <= id < fileCount
  {
    forall id | id in CommonFiles(tokens, index)
      ensures 0 <= id < fileCount
    {
      var h :| h in index[tokens[0]] && h.fileId == id;
    }
  }

  /** The loop over the listed common files: builds each file's result, and stops at the
      first file whose snippets cannot be read. */
  method BuildAndResults(ids: seq<int>, tokens: seq<string>, files: seq<FileRecord>, index: Index, disk: Disk,
                         cfg: Tokenizer.Config, fl: Floats) returns (r: Result<seq<SearchResult>, ReadError>)
    requires forall k :: 0 <= k < |ids| ==> 0 <= ids[k] < |files|
    requires forall k :: 0 <= k < |tokens| ==> tokens[k] in index
    ensures r == Gather(ids, AndResultFn(tokens, files, index, disk, cfg, fl))
  {
    ghost var resultFor := AndResultFn(tokens, files, index, disk, cfg, fl);
    var results: seq<SearchResult> := [];
    var k := 0;
    while k < |ids|
      invariant 0 <= k <= |ids|
      invariant Gather(ids[..k], resultFor) == Success(results)
    {
      var fileId := ids[k];
      GatherSnoc(ids, resultFor, k);
      var result := FileResult(fileId, tokens, files, index, disk, cfg, fl);
      assert resultFor(fileId) == result;
      if result.Failure? {
        GatherFailureStays(ids, resultFor, k + 1);
        return Failure(result.error);
      }
      results := results + [result.value];
      k := k + 1;
    }
    assert ids[..k] == ids;
    return Success(results);
  }

  /** search_and: no tokens, or a token without hits, gives nothing; otherwise one result
      per file holding every token, in some listing of those files, ranked by score,
      matches_count and path, and cut to limit. */
  method SearchAnd(query: string, files: seq<FileRecord>, index: Index, disk: Disk, cfg: Tokenizer.Config,
                   limit: int, fl: Floats) returns (r: Result<seq<SearchResult>, ReadError>)
    requires ValidIds(index, |files|)
    ensures var tokens := TokenizeQuery(query, cfg);
      tokens == [] || AnyMissing(tokens, index) ==> r == Success([])
    ensures var tokens := TokenizeQuery(query, cfg);
      tokens != [] && !AnyMissing(tokens, index) ==>
        exists ids :: IsEnumeration(ids, CommonFiles(tokens, index))
          && (forall k :: 0 <= k < |ids| ==> 0 <= ids[k] < |files|)
          && r == Rank(Gather(ids, AndResultFn(tokens, files, index, disk, cfg, fl)), true, limit)
  {
    var tokens := TokenizeQuery(query, cfg);
    if tokens == [] {
      return Success([]);
    }
    var sets := TokenFileSets(tokens, index);
    if sets.None? {
      return Success([]);
    }
    var common := IntersectAll(sets.value);
    IntersectionIsCommonFiles(tokens, index, sets.value);
    var ids := ListOf(common);
    CommonFilesInRange(tokens, index, |files|);
    assert forall k :: 0 <= k < |ids| ==> ids[k] in Elements(ids);
    var results := BuildAndResults(ids, tokens, files, index, disk, cfg, fl);
    if results.Failure? {
      return Failure(results.error);
    }
    return Success(PySlicePrefix(Sort(results.value, true), limit));
  }

  /** A file's result under search_and, when the file holds every query token: it fails
      exactly when the file is missing; otherwise it carries the file's path, a
      matches_count of at least the number of tokens, the file's score, and at most 25
      snippets of at most 180 characters. */
  lemma AndResultForSpec(fileId: int, tokens: seq<string>, files: seq<FileRecord>, index: Index, disk: Disk,
                         cfg: Tokenizer.Config, fl: Floats)
    requires 0 <= fileId < |files|
    requires forall k :: 0 <= k < |tokens| ==> tokens[k] in index && fileId in FileIds(index[tokens[k]])
    ensures var r := AndResultFor(fileId, tokens, files, index, disk, cfg, fl);
      && (r.Success? <==> files[fileId].path in disk)
      && (r.Failure? ==> r.error == FileNotFound(files[fileId].path))
      && (r.Success? ==> GoodAndEntry(r.value, fileId, tokens, files, index, fl))
  {
    var path := files[fileId].path;
    MatchesCountAtLeastTokens(tokens, index, fileId);
    if path in disk {
      Snippets.SnippetsSpec(disk[path].lines, tokens, Snippets.DefaultMaxSnippets, Snippets.DefaultMaxLen, cfg);
    }
  }

  /** What an entry of search_and promises about the file it stands for. */
  predicate GoodAndEntry(x: SearchResult, fileId: int, tokens: seq<string>, files: seq<FileRecord>, index: Index, fl: Floats)
    requires 0 <= fileId < |files|
  {
    && x.path == files[fileId].path
    && x.matchesCount == MatchesCount(tokens, index, fileId) >= |tokens|
    && x.score == Score(fileId, tokens, index, |files|, fl)
    && |x.snippets| <= 25
    && forall j :: 0 <= j < |x.snippets| ==> |x.snippets[j]| <= 180
  }

  /** search_and fails exactly when a file holding every token is missing from disk, and
      then names such a file. */
  lemma SearchAndFailure(tokens: seq<string>, ids: seq<int>, files: seq<FileRecord>, index: Index, disk: Disk,
                         cfg: Tokenizer.Config, fl: Floats)
    requires tokens != [] && !AnyMissing(tokens, index)
    requires IsEnumeration(ids, CommonFiles(tokens, index))
    requires forall k :: 0 <= k < |ids| ==> 0 <= ids[k] < |files|
    ensures var r := Gather(ids, AndResultFn(tokens, files, index, disk, cfg, fl));
      r.Failure? <==> exists id :: id in CommonFiles(tokens, index) && files[id].path !in disk
    ensures var r := Gather(ids, AndResultFn(tokens, files, index, disk, cfg, fl));
      r.Failure? ==> exists id :: id in CommonFiles(tokens, index) && r.error == FileNotFound(files[id].path)
  {
    var common := CommonFiles(tokens, index);
    var resultFor := AndResultFn(tokens, files, index, disk, cfg, fl);
    GatherSpec(ids, resultFor);
    forall k | 0 <= k < |ids|
      ensures ids[k] in common
      ensures resultFor(ids[k]).Success? <==> files[ids[k]].path in disk
      ensures resultFor(ids[k]).Failure? ==> resultFor(ids[k]).error == FileNotFound(files[ids[k]].path)
    {
      assert ids[k] in Elements(ids);
      AndResultForSpec(ids[k], tokens, files, index, disk, cfg, fl);
    }
    forall id | id in common
      ensures exists k :: 0 <= k < |ids| && ids[k] == id
    {
      assert id in Elements(ids);
    }
  }

  /** On success search_and is ranked by score, matches_count and path, holds
      min(limit, number of common files) entries for a non-negative limit and, when limit
      reaches that number, the result of every common file. */
  lemma SearchAndRanked(tokens: seq<string>, ids: seq<int>, files: seq<FileRecord>, index: Index, disk: Disk,
                        cfg: Tokenizer.Config, limit: int, fl: Floats)
    requires tokens != [] && !AnyMissing(tokens, index)
    requires IsEnumeration(ids, CommonFiles(tokens, index))
    requires forall k :: 0 <= k < |ids| ==> 0 <= ids[k] < |files|
    ensures var r := Rank(Gather(ids, AndResultFn(tokens, files, index, disk, cfg, fl)), true, limit);
      r.Success? ==>
        && Ranked(r.value, true)
        && (limit >= 0 ==> |r.value| == if limit <= |CommonFiles(tokens, index)| then limit else |CommonFiles(tokens, index)|)
        && (limit >= |CommonFiles(tokens, index)| ==> forall id :: id in CommonFiles(tokens, index) && 0 <= id < |files| ==>
              AndResultFor(id, tokens, files, index, disk, cfg, fl).Success? &&
              AndResultFor(id, tokens, files, index, disk, cfg, fl).value in r.value)
  {
    var common := CommonFiles(tokens, index);
    var resultFor := AndResultFn(tokens, files, index, disk, cfg, fl);
    var rs := Gather(ids, resultFor);
    GatherSpec(ids, resultFor);
    if rs.Success? {
      DistinctIffCard(ids);
      RankSpec(rs.value, true, limit);
      var sorted := Sort(rs.value, true);
      assert |sorted| == |multiset(sorted)| == |multiset(rs.value)| == |rs.value| == |common|;
      if limit >= |common| {
        forall id | id in common && 0 <= id < |files|
          ensures AndResultFor(id, tokens, files, index, disk, cfg, fl).Success?
          ensures AndResultFor(id, tokens, files, index, disk, cfg, fl).value in sorted
        {
          assert id in Elements(ids);
          var k :| 0 <= k < |ids| && ids[k] == id;
          assert resultFor(ids[k]) == AndResultFor(id, tokens, files, index, disk, cfg, fl);
          assert rs.value[k] in multiset(rs.value);
        }
      }
    }
  }

  /** Every entry search_and returns is the result of a file holding every query token. */
  lemma SearchAndEntries(tokens: seq<string>, ids: seq<int>, files: seq<FileRecord>, index: Index, disk: Disk,
                         cfg: Tokenizer.Config, limit: int, fl: Floats)
    requires tokens != [] && !AnyMissing(tokens, index)
    requires IsEnumeration(ids, CommonFiles(tokens, index))
    requires forall k :: 0 <= k < |ids| ==> 0 <= ids[k] < |files|
    ensures var r := Rank(Gather(ids, AndResultFn(tokens, files, index, disk, cfg, fl)), true, limit);
      r.Success? ==> forall x :: x in r.value ==> exists id :: (id in CommonFiles(tokens, index) && 0 <= id < |files|
        && AndResultFor(id, tokens, files, index, disk, cfg, fl) == Success(x)
        && GoodAndEntry(x, id, tokens, files, index, fl))
  {
    var common := CommonFiles(tokens, index);
    var resultFor := AndResultFn(tokens, files, index, disk, cfg, fl);
    var rs := Gather(ids, resultFor);
    GatherSpec(ids, resultFor);
    if rs.Success? {
      RankSpec(rs.value, true, limit);
      forall x | x in PySlicePrefix(Sort(rs.value, true), limit)
        ensures exists id :: (id in common && 0 <= id < |files|
          && AndResultFor(id, tokens, files, index, disk, cfg, fl) == Success(x)
          && GoodAndEntry(x, id, tokens, files, index, fl))
      {
        var k :| 0 <= k < |rs.value| && rs.value[k] == x;
        var id := ids[k];
        assert id in Elements(ids);
        AndResultForSpec(id, tokens, files, index, disk, cfg, fl);
      }
    }
  }
}
