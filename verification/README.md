# mini_google core, modelled in Dafny

This project models the `core/` package of a small desktop search tool for text files.
Each file of the package has a Dafny module of the same name:

- **Tokenizer**: `normalize_text`, `split_to_tokens`, `filter_tokens` and `tokenize_line`.
- **Normalize**: the aggregated-posting normaliser. It has its own posting shape
  `Posting(fileId, unitIndex, count)`, distinct from the line `Hit` of `models.py`.
- **Extractors**: the CSV unit extractor and the dispatch on file extension. A CSV file is given
  as its rows of cells.
- **Indexer**: the directory scan, line numbering, and the inverted index `token -> [Hit]`.
- **Query**: AND search and exact substring search.
- **Snippets**: snippet selection for both kinds of search.
- **Persist**: saving, loading and validating an index directory.

Three further modules hold shared pieces:

- `Models` holds the shared records.
- `Results` holds `Option` and `Result`. These stand for `None` and for raised exceptions.
- `Text` holds the Python string behaviour the package relies on:
  - `str.strip`, `str.lower`, `str.isdigit` and `str.replace(c, "", n)`;
  - the substring test `in`;
  - slicing;
  - `int`/`str` conversion;
  - string ordering.

The file system is a value, not something the model reads:

- A disk is a map from path to `DiskFile(size, mtime, lines)`. The lines are what text-mode
  iteration yields, newline included.
- An index directory is an `IndexDir`. It holds the parsed `meta.json` document and the parsed
  lines of `index.jsonl.gz`; either may be absent or malformed.

Code that loops and accumulates is written as a Dafny `method` with loop invariants. Each such
method is proved equal to a specification function, and the properties are lemmas about that
function. The methods are:

- `FilterTokens`, `MergeHitsForSameFile` and `NormalizePostings`;
- `ParseCsvRows` and `FormatCsvRow`;
- `ScanFiles` and `BuildIndex`, with its per-file and per-line loops;
- `SearchAnd`, `SearchExact` and `CountExactInFile`;
- `MakeSnippets` and `MakeExactSnippets`;
- `SaveIndex`, `LoadIndex` and `ValidateIndex`.

Pure expressions stay functions: `normalize_text`, `_is_number`, `detect_csv_has_header` and
`tokenize_query`.

Where the code decides a case differently from how the code's own comments describe it, the
model follows the code. The cap in `make_snippets` and `make_exact_snippets`
(`core/snippets.py:29-30`, `49-50`) is checked after every line, whether or not that line matched.
So `max_snippets == 0` stops at the first line unless that line matches; once a match is
appended, the list never again has length 0, and every later match is kept.
`Snippets.CollectClosedForm` states all three regimes: the cap is at least 1, is 0, or is
negative.

## Model

| member | source | states |
|---|---|---|
| Tokenizer.NormalizeText | core/tokenizer.py:4-10 | Output has the input's length. Each letter becomes its lower-case form. A digit stays only when numbers are kept, and is otherwise a space. Every other character becomes whitespace, so every output character is a token character or whitespace. |
| Tokenizer.SplitToTokens | core/tokenizer.py:13-14 | Every piece of `str.split()` is non-empty and free of whitespace. |
| Tokenizer.SplitSqueeze | core/tokenizer.py:13-14 | Joining the pieces of `str.split()` with single spaces gives the text with its outer whitespace dropped and each inner whitespace run squeezed to one space. That squeezed text is defined character by character, independently of the split. |
| Tokenizer.SplitUnique | core/tokenizer.py:13-14 | Any list of non-empty, space-free words that joins to the squeezed text is exactly the list `str.split()` returns. |
| Tokenizer.SplitJoin | core/tokenizer.py:13-14 | Splitting the space-join of non-empty, space-free words gives back exactly those words. |
| Tokenizer.Filtered | core/tokenizer.py:17-25 | A token is kept iff it occurs in the input, is at least `min_length` long and is no stopword. The result has no repeats and keeps order of first occurrence. |
| Tokenizer.FilterTokens | core/tokenizer.py:17-25 | The appending loop with its membership check returns exactly `Filtered`, with `None` stopwords treated as the empty set. |
| Tokenizer.FilteredIdentity | core/tokenizer.py:17-25 | A list that is already distinct and passes the filter is returned unchanged. |
| Tokenizer.TokenizeLine | core/tokenizer.py:28-33 | Every token is non-empty, at least `min_length` long, no stopword, and made only of lower-case letters and digits. No token repeats. |
| Tokenizer.TokenizeLineSpec | core/tokenizer.py:28-33 | A string is a token of the line iff it is a word of the normalised line that is at least `min_length` long and no stopword. The tokens are ordered by their first occurrence among those words. |
| Tokenizer.NoDigitsWithoutKeepNumbers | core/tokenizer.py:7-8 | With `keep_numbers` false no token contains a digit. |
| Tokenizer.TokenizeJoinedIdempotent | core/tokenizer.py:28-33 | Tokenising the space-joined tokens of a line again, with the same settings, gives the same tokens. |
| TokenizerExamples.TokenizeExample | core/tokenizer.py:28-33 | `"The Quick, Fox!"` with minimum length 2 yields `["the", "quick", "fox"]`. |
| Normalize.NormalizeUnitNumbers | core/normalize.py:3-4 | `sorted(set(xs))` is strictly increasing and has exactly the elements of `xs`. |
| Normalize.StrictlyIncreasingUnique | core/normalize.py:3-4 | Two strictly increasing lists with the same elements are equal, so the normalised list is determined by the element set. |
| Normalize.NormalizeUnitNumbersIdempotent | core/normalize.py:3-4 | Normalising unit numbers twice is the same as once. |
| Normalize.MergeHits | core/normalize.py:6-22 | Fails exactly on the empty list. Otherwise the merged posting has the first posting's file id and the sum of the counts. Its units are strictly increasing and are exactly the union of all unit lists. |
| Normalize.MergeHitsForSameFile | core/normalize.py:6-22 | The loop that extends the unit list computes `MergeHits`, error case included. |
| Normalize.SortByFileIdRestrict | core/normalize.py:28 | Sorting by file id keeps each file's postings in their input order, as a stable sort does. |
| Normalize.GroupsSpec | core/normalize.py:30-40 | The grouping walk over sorted postings yields one non-empty group per file: increasing file ids, and each group is exactly that file's postings in order. |
| Normalize.MergedGroups | core/normalize.py:28-40 | After merging, the file ids are pairwise distinct and are exactly the input's file ids. Each entry is the merge of that file's postings. |
| Normalize.NormalizedPostingsCharacterized | core/normalize.py:24-42 | The output is ordered strictly by count descending, then file id ascending. It has the input's file-id set, and each entry is the merge of that file's postings. |
| Normalize.NormalizationUnique | core/normalize.py:24-42 | Any two lists with the properties above are equal, so they define the normaliser. |
| Normalize.NormalizedPostingsTotal | core/normalize.py:28-42 | The sum of all counts is preserved. |
| Normalize.NormalizedPostingsIdempotent | core/normalize.py:24-42 | Normalising a normalised posting list changes nothing. |
| Normalize.NormalizePostings | core/normalize.py:24-42 | The loop over the sorted postings with a pending group returns the normalisation, and returns `[]` for `[]`. |
| Normalize.NormalizeIndex | core/normalize.py:44-48 | Keeps the token set, and normalises every token's postings. |
| Normalize.NormalizeIndexIdempotent | core/normalize.py:44-48 | Normalising an index twice is the same as once. |
| Extractors.IsNumberIff | core/extractors.py:15-19 | `_is_number(s)` holds iff removing the first `.`, or else the first `,`, leaves a non-empty all-digit string. |
| Extractors.IsNumberDecimalExample | core/extractors.py:15-19 | `"3.5"` is a number. |
| Extractors.IsNumberThousandsExample | core/extractors.py:15-19 | `"1,000"` is a number. |
| Extractors.NotNumberExamples | core/extractors.py:15-19 | `""` and `"-1"` are not numbers. |
| Extractors.NotNumberMixedExample | core/extractors.py:15-19 | `"1,000.5"` is not a number. |
| Extractors.NotNumberBothSeparators | core/extractors.py:15-19 | No string holding both a `.` and a `,` is a number, since removing one leaves the other. |
| Extractors.IsNumberChars | core/extractors.py:15-19 | A number consists only of digits, `.` and `,`. |
| Extractors.SampleRows | core/extractors.py:21-31 | The sample is the first `max_rows` rows, or all rows when there are fewer. |
| Extractors.DetectCsvHasHeader | core/extractors.py:34-58 | No header with fewer than two rows, with a repeated first-row cell, or with a blank or over-long first-row cell. When a numeric cell sits under a non-numeric header, the answer is decided by the earlier rules alone. |
| Extractors.DetectCsvHasHeaderIff | core/extractors.py:34-58 | There is a header iff there are at least two rows, the first row's cells are distinct, each is non-blank and at most 50 characters after stripping, and the first two rows differ. |
| Extractors.IdenticalRowsNoHeader | core/extractors.py:55-56 | Two identical leading rows never count as a header. |
| Extractors.ParseCsvRows | core/extractors.py:61-86 | The appending loop computes `ParsedCsv`. |
| Extractors.ParsedCsvShape | core/extractors.py:61-86 | No data rows gives no headers. A header row with data gives that row and the rest. Without a header, all rows are data, and the synthetic headers are distinct and cover the longest row. |
| Extractors.SyntheticHeadersDistinct | core/extractors.py:82-84 | The names `col1` .. `colN` are pairwise distinct. |
| Extractors.CsvParts | core/extractors.py:89-101 | A row formats into as many parts as the longer of its header list and its cells. |
| Extractors.FormatCsvRow | core/extractors.py:89-101 | The loop over columns builds the parts joined by `" | "`. Each part is a stripped header, `": "` and the stripped value. A missing value is empty and a missing header is `col{i+1}`. |
| Extractors.SyntheticHeadersAgreeWithFallback | core/extractors.py:82-101 | Formatting a row under synthetic headers gives the same text as formatting it with no headers at all. |
| Extractors.CsvFormatExample | core/extractors.py:89-101 | `["name", "age"]` over `["Alice", "30"]` formats as `"name: Alice | age: 30"`. |
| Extractors.CsvHeaderExample | core/extractors.py:34-58 | A name/age table with two data rows has a header. |
| Extractors.ExtractCsvUnitsRows | core/extractors.py:104-108 | Exactly one unit per data row, in order. Each is that row formatted under the parsed headers. |
| Extractors.ExtractUnitsByExtension | core/extractors.py:119-131 | `.csv` gives the CSV units. The stubbed plain-text, JSON and XML extractors give `None`. Any other extension gives `[]`. |
| Extractors.ExtractUnitsByExtensionCaseInsensitive | core/extractors.py:119-120 | Dispatch depends only on the lower-cased extension and ignores `case_sensitive`. |
| Indexer.SplitExt | core/indexer.py:16 | `os.path.splitext`: the two parts concatenate back to the name. The extension is empty or a single dot-led segment after the last `/`, and a leading dot is never taken as one. |
| Indexer.SplitExtExamples | core/indexer.py:16 | `notes.TXT` splits to `.TXT`, `a.tar.gz` to `.gz`, and `.bashrc` has no extension. |
| Indexer.FileTypeOf | core/indexer.py:21-28 | `.txt`, `.log` and `.py` map to their own types, and every other extension maps to MD. |
| Indexer.ScanFiles | core/indexer.py:8-33 | Fails with `NotADirectoryError` exactly when the root is not a directory. Otherwise returns `Scanned`, in listing order. |
| Indexer.ScannedMembers | core/indexer.py:14-31 | A record is returned iff some listed name is a regular file with an allowed lower-cased extension, and the record is that file's path, size, mtime and type. |
| Indexer.ScanIgnoresUpperCaseExtensions | core/indexer.py:16-18 | Allowed extensions with upper-case letters can never match, since the name's extension is lower-cased first. |
| Indexer.StripNewlinesSpec | core/indexer.py:39 | `rstrip("\n")` removes exactly the trailing newlines. |
| Indexer.IterLinesSpec | core/indexer.py:36-39 | A missing file fails to open. Otherwise there is one pair per line, numbered from 1, with the trailing newlines removed. |
| Indexer.BuiltIndexSpec | core/indexer.py:42-72 | Building fails iff a listed file is missing, with the first missing file's error. Otherwise every token maps to a non-empty hit list. The list is strictly ascending in (file id, line), so no pair repeats, and every hit has start and end `-1`. `Hit(f, n, -1, -1)` is present iff the token is among the tokens of line `n` of file `f`. |
| Indexer.RecordFilesFailure | core/indexer.py:51-52 | After any prefix of the files, the fold has failed iff a file in that prefix is missing, with the first missing file's error. |
| Indexer.AddLineHits | core/indexer.py:60-70 | The token loop with its duplicate check computes `RecordAll`. |
| Indexer.AddFileHits | core/indexer.py:52-70 | The line loop computes `RecordLines`. |
| Indexer.AddFile | core/indexer.py:52-70 | Opening one file and indexing its lines computes `IndexFile`. |
| Indexer.BuildIndex | core/indexer.py:42-72 | The file loop computes `RecordFiles`, and `BuiltIndexSpec` gives that its meaning. |
| Query.TokenizeQuery | core/query.py:7-19 | Query tokens are the line tokens: distinct, non-empty, at least `min_length` long, no stopwords. |
| Query.DocFreq | core/query.py:119-124 | A token absent from the index has document frequency 0. Otherwise it counts the distinct file ids among the token's hits: at most the number of hits, and 0 only for no hits. |
| Query.TermHits | core/query.py:128-132 | An absent token counts 0 hits. Otherwise it counts at most the token's hits, and is positive iff the file has one. |
| Query.AbsentTokenScoresZero | core/query.py:119-135 | A token missing from the index adds nothing to a score. |
| Query.Dedup | core/query.py:145 | `set(query_tokens)` has the same elements without repeats. |
| Query.ScoreIgnoresRepeats | core/query.py:137-156 | Repeating a query token does not change a file's score. |
| Query.InsertRanked | core/query.py:75 | Inserting into a ranked list keeps it ranked. |
| Query.SortRanked | core/query.py:75 | The sort yields a ranked permutation of its input. Under the AND key that is score descending, then match count descending, then path ascending; under the exact key, score is not compared. |
| Query.RankSpec | core/query.py:75-76 | The returned list is ranked and holds `min(limit, n)` entries for a non-negative limit. Every entry is one of the results. |
| Query.ExactLineCount | core/query.py:109-117 | The count never exceeds the number of lines. |
| Query.ExactLineCountIsMatches | core/query.py:109-117 | The count equals the number of lines containing the query text, the same lines exact snippets are taken from. |
| Query.CountExactInFile | core/query.py:109-117 | The counting loop fails exactly on a missing file. Otherwise it returns the number of lines containing the text. |
| Query.ExactResultOf | core/query.py:91-103 | One file's step of the exact-search loop. |
| Query.ExactResultsSpec | core/query.py:90-103 | Every result comes from a listed file that contains the text. Every listed file with at least one matching line has a result. |
| Query.SearchExact | core/query.py:79-106 | A query that is blank after stripping gives `[]`. Otherwise the results of the file loop are ranked and cut to `limit`. |
| Query.SearchExactSpec | core/query.py:79-106 | Results are ranked by match count, then path. There are at most `limit` of them. Each has a count of at least 1 and equal to its file's matching-line count, score equal to that count, and at most 3 snippets of at most 180 characters. |
| Query.TokenFileSets | core/query.py:44-49 | Returns none iff some query token is absent or has no hits. Otherwise it returns each token's file-id set, in token order. |
| Query.IntersectionIsCommonFiles | core/query.py:52 | Intersecting those sets gives exactly the files holding every query token. |
| Query.DistinctLines | core/query.py:61-65 | The loop with `lines_used` counts the distinct line numbers of the token's hits in that file. |
| Query.MatchesCountOf | core/query.py:59-65 | The loop over query tokens sums those per-token distinct-line counts. |
| Query.MatchesCountAtLeastTokens | core/query.py:58-65 | For a file holding every query token, the match count is at least the number of tokens. |
| Query.ListOf | core/query.py:55 | `list(common_file_ids)` lists each common file exactly once, in an order left open. |
| Query.GatherSpec | core/query.py:54-72 | The result loop succeeds iff every file's result does. It then gives one result per listed file, in order; a failure is some file's failure. |
| Query.FileResult | core/query.py:56-72 | One iteration of the result loop computes `AndResultFor`. |
| Query.AndResultForSpec | core/query.py:56-72 | For a file holding every token, the entry fails iff the file is missing. Otherwise it has the file's path, the match count, the TF-IDF score, and at most 25 snippets of at most 180 characters. |
| Query.SearchAnd | core/query.py:22-76 | No query tokens, or a token with no hits, gives `[]`. Otherwise some enumeration of the common files is gathered, ranked and cut to `limit`. |
| Query.SearchAndFailure | core/query.py:54-72 | The AND search fails iff a file holding every token is missing from disk. |
| Query.SearchAndRanked | core/query.py:52-76 | Results are ranked by score, match count and path. There are `min(limit, common files)` of them. With a limit covering all common files, every common file's entry is present. |
| Query.SearchAndEntries | core/query.py:52-76 | Every result is the entry of some file holding all query tokens, with that file's path, match count and score. |
| Snippets.SnippetOf | core/snippets.py:19-27 | A picked snippet is a prefix of the stripped line, of length `min(len, max_len)`. |
| Snippets.SnippetLine | core/snippets.py:19-27 | The token loop with its `break` picks a line iff one of its tokens is in the query set. |
| Snippets.MakeSnippets | core/snippets.py:4-32 | Fails exactly on a missing file. Otherwise it returns the capped loop over the file's lines, with `set(query_tokens)` as the query. |
| Snippets.CollectClosedForm | core/snippets.py:17-30 | With a cap of at least 1, the loop returns the first `cap` matches. With a negative cap it returns all matches. With cap 0 it returns all matches if the first line matches, and none otherwise. In every case the result is a prefix of all matches. |
| Snippets.PickedLinesAscending | core/snippets.py:18-27 | The lines a snippet list comes from are in file order, each used at most once. |
| Snippets.PickedLinesMatch | core/snippets.py:18-27 | The k-th snippet is what the picker makes of the k-th picked line. |
| Snippets.PickedLinesComplete | core/snippets.py:18-27 | Every line the picker accepts is among the picked lines. |
| Snippets.SnippetsSpec | core/snippets.py:4-32 | At most `max_snippets` snippets when that is at least 1. Each is a prefix, of at most `max_len` characters, of a stripped line whose tokens meet the query. |
| Snippets.DefaultSnippetsBounded | core/snippets.py:8-9 | With the defaults, at most 25 snippets of at most 180 characters. |
| Snippets.ExactOf | core/snippets.py:46-48 | A line is picked iff it contains the text. The snippet is a prefix of the line with every newline removed, at most `max_len` long. |
| Snippets.MakeExactSnippets | core/snippets.py:35-52 | Fails exactly on a missing file. Otherwise it returns the capped loop with the exact picker. |
| Snippets.ExactSnippetsSpec | core/snippets.py:35-52 | At most `max_snippets` snippets when that is at least 1. Each comes from a line containing the text, has no newline, and is at most `max_len` long. |
| Snippets.ExactSnippetsComplete | core/snippets.py:44-50 | With a positive cap, either every matching line is present or the cap is reached. |
| Persist.FileTypeNamed | core/persist.py:104-106 | `FileType[name]` succeeds iff some type has that name, and returns the type of that name. |
| Persist.DecodeFileRecords | core/persist.py:102-109 | The files loop computes `DecodeFiles`. |
| Persist.DecodeFilesSpec | core/persist.py:102-109 | Decoding fails iff some entry names an unknown type, with the first such name. Otherwise it gives one record per entry that re-encodes to it. |
| Persist.FilesRoundTrip | core/persist.py:40-109 | Records saved to `meta.json` load back identical: path, size, mtime and type. |
| Persist.KeyIndex | core/persist.py:65 | The position of a key among the stored groups, or -1 exactly when it is absent. |
| Persist.EncodeHits | core/persist.py:63-65 | The `setdefault(...).append` loop computes `Grouped`. |
| Persist.DecodeHits | core/persist.py:121-124 | The nested hits loop computes `DecodeGroups`. |
| Persist.HitsRoundTrip | core/persist.py:63-124 | Decoding the grouped hits always succeeds and gives the same multiset of (file, line) pairs, with positions reset to -1. For any hits, each file's hits come back in their saved order. For hits already grouped by file, the whole order is preserved too. For hits that are also unpositioned, the result equals the input. |
| Persist.GroupedPerFile | core/persist.py:63-124 | For any order of one token's hits, the hits of each file after a save and a load are that file's saved hits, in the same order, with positions reset to -1. |
| Persist.EncodeIndex | core/persist.py:57-67 | Writes one entry per token of the index, in some order, each holding the token's grouped hits. |
| Persist.DecodeIndex | core/persist.py:115-124 | The index-lines loop computes `DecodeLines`. |
| Persist.DecodeLinesUnpositioned | core/persist.py:124 | Every loaded hit has start and end `-1`. |
| Persist.SavedMeta | core/persist.py:34-48 | The saved metadata is the caller's metadata with `files` set. Every other key is kept, and the caller's value is not altered. |
| Persist.SaveIndex | core/persist.py:14-72 | Fails with `NotADirectoryError`, writing nothing, iff the directory does not exist. Otherwise only that directory changes, to the saved metadata and an encoding of the index. |
| Persist.FileProblems | core/persist.py:144-154 | A missing file gives exactly one problem. Otherwise there are up to two problems, one for size and one for mtime. There are none iff the file is unchanged. |
| Persist.ValidateIndex | core/persist.py:137-156 | The loop returns the problem list. `is_valid` holds iff every file is present with its recorded size and mtime. |
| Persist.ValidIffUnchanged | core/persist.py:141-156 | The problem list is empty iff every file is unchanged, and has at most two entries per file. |
| Persist.LoadSpec | core/persist.py:78-131 | Fails with `FileNotFoundError` iff the directory, `meta.json` or `index.jsonl.gz` is missing. Success needs a supported format version, and the returned metadata carries the validation result for the loaded records. |
| Persist.LoadIndex | core/persist.py:78-131 | The loading code, its loops and its exception rewrapping compute `LoadSpec`. |
| Persist.FileEntries | core/persist.py:102-108 | The `"files"` loop visits a list's entries and nothing for `""` or `{}`. Any other value makes the loop raise, which becomes a `RuntimeError`. |
| Persist.EmptyFilesLoad | core/persist.py:102-112 | With a supported version and `"files"` equal to `""` or `{}`, the load succeeds with no records and a validation entry reporting no problems. |
| Persist.LoadedUnpositioned | core/persist.py:115-124 | Every hit of a loaded index has start and end `-1`. |
| Persist.IndexRoundTrip | core/persist.py:57-124 | Decoding a saved index gives the same tokens. Each token's hits are the same multiset, with positions reset. They are identical for hits grouped by file and unpositioned, as `build_index` makes them. |
| Persist.LoadOfSaved | core/persist.py:14-131 | Loading a directory just saved with version `"1"` succeeds. It returns the saved records, the decoded index, and the saved metadata plus the validation entry. |
| Persist.SaveThenLoad | core/persist.py:14-131 | Save-then-load returns the same file records and the same tokens. Each token's hits are preserved as a multiset, and exactly for grouped, unpositioned hits. |
| Text.StripSpec | core/snippets.py:19 | `str.strip()` returns the block of the input that starts right after its leading whitespace. The block neither begins nor ends with whitespace, and everything before it is whitespace. |
| Text.StripTrailing | core/snippets.py:19 | Everything in the input after the block `str.strip()` keeps is whitespace. |
| Text.StripEmptyIff | core/query.py:85-86 | A string strips to empty iff it is all whitespace. |
| Text.PySlicePrefix | core/snippets.py:48 | `s[:k]` is a prefix of length `min(k, len)` for `k >= 0`, and `max(len + k, 0)` for negative `k`. |
| Text.RemoveAll | core/snippets.py:47 | `replace("\n", "")` leaves no newline, and keeps every other character exactly as often as the input has it. |
| Text.RemoveAllAppend | core/snippets.py:47 | `replace("\n", "")` works piece by piece: on a concatenation it is the concatenation of the two results, so the kept characters stay in order. |
| Text.RemoveFirstSplit | core/extractors.py:16 | `replace(c, "", 1)` removes exactly the first occurrence of `c`. |
| Text.IntStringRoundTrip | core/persist.py:122 | `int(str(n)) == n`, so file-id keys load back as the ids that were saved. |

## Left out

- Unicode: characters are treated as ASCII. Python's `\d`, `\s`, `isdigit` and `lower` also
  accept non-ASCII digits, spaces and letters; the model does not.
- Real I/O is abstracted as a disk map and a store of parsed documents. This leaves out file
  encodings and `errors="ignore"`, `csv` quoting and dialects, the gzip and JSON byte formats,
  write failures during saving, and `os.stat` races.
- Write failures in `save_index` are not modelled. Its `RuntimeError` rewrap (`core/persist.py:69-72`)
  therefore has no case.
- The JSON shapes of saved data are modelled only as far as loading inspects them. Non-object
  metadata, missing keys in a file entry or token line, and duplicate JSON keys are not represented.
  Nor are list entries in `"files"` that are not objects.
- Text.ParseInt: `int()` is modelled for an optional `+` or `-` sign followed by ASCII digits. Its
  surrounding whitespace and underscore separators are not.
- Dictionary and set iteration order is left open. The token order of `save_index` and the order of
  `list(common_file_ids)` are each chosen nondeterministically. Every stated property holds for
  every order.
- The TF-IDF score is kept abstract:
  - `math.log` and `math.sqrt` are parameters, `Floats(sqrt, log)`;
  - scores are `real`, so floating-point rounding is not modelled;
  - the mtime comparison in `validate_index` is exact equality on `real`.
- `list.sort` is modelled as a stable insertion sort with the same keys. The tie order of equal
  keys is therefore the input order, as in Python.
- `extract_plaintext_units`, `extract_json_units`, `extract_xml_units` and `clamp_units` are stubs
  without a body in the repository. The first three give `None` in the dispatch. `clamp_units` is
  not part of this model.
- `get_file_extension` (`core/extractors.py:8-9`) is not part of this model. The dispatch takes the
  extension as a parameter.
- `read_csv_sample_rows` works on an already parsed row sequence.
- `core/engine.py` is an empty stub and is not part of this model; nor is the `ui/` package.
- Query.SearchAnd: requires every file id in the index to satisfy `0 <= id < len(files)`. Python
  behaves differently outside that range:
  - an id of `len(files)` or more raises `IndexError` on `files[file_id]`;
  - a negative id from `-len(files)` to `-1` indexes from the end, so it names another file's path;
  - a smaller negative id raises `IndexError`.
  `build_index` never produces ids outside the range. `load_index` can: it parses keys with `int()`,
  so a saved key `"-1"` loads as id -1. The model does not cover such an index.
- Query.SearchAndFailure, Query.SearchAndRanked, Query.SearchAndEntries: require the same range for
  the enumerated common file ids, for the reason given for Query.SearchAnd.
- Indexer.JoinPath: models `os.path.join` as `posixpath` does it, joining with `/`. On Windows,
  `ntpath` joins with `\`, and `FileRecord.path` would hold that separator instead. Extensions
  are unaffected, because the names `os.listdir` returns hold no separator.
- `os.listdir` is a parameter, the listed names. `os.path.isdir` is a set of directories.
- `deepcopy` in `save_index` is implicit: Dafny values are immutable, so the caller's `meta` cannot
  change.
