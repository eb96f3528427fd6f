/** The records shared by the indexing, query and persistence code. */
module Models {

  /** The file kinds the scanner assigns. */
  datatype FileType = TXT | LOG | PY | MD

  /** One file found by the scanner: its path and content fingerprint. */
  datatype FileRecord = FileRecord(path: string, size: int, mtime: real, filetype: FileType)

  /** One posting of the line index: the token occurs on line lineNo of file fileId.
      The indexer always stores -1 in start and end. */
  datatype Hit = Hit(fileId: int, lineNo: int, start: int, end: int)

  /** One ranked answer to a query. */
  datatype SearchResult = SearchResult(path: string, matchesCount: int, score: real, snippets: seq<string>)

  /** What the file system holds at a path: its size, modification time and its lines
      as text-mode iteration yields them (each but possibly the last ending in "\n"). */
  datatype DiskFile = DiskFile(size: int, mtime: real, lines: seq<string>)

  /** The regular files present, by path; a path that is absent is not a file. */
  type Disk = map<string, DiskFile>

  /** Opening a path that holds no file (FileNotFoundError). */
  datatype ReadError = FileNotFound(path: string)

  /** The inverted index: token -> hits. */
  type Index = map<string, seq<Hit>>
}
