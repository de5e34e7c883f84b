/**
  The data the search engine works on: its configuration, the filesystem as
  the engine observes it, the hits of a content scan and the output blocks it
  writes to the console.
 */
module SearchTypes {

  datatype Option<+T> = None | Some(value: T)

  /** The regular-expression test of the program, left uninterpreted:
      `find(text, pattern)` says whether `text` matches `pattern`. */
  type Matcher = (string, string) -> bool

  /** The search configuration. `regex` is the primary pattern (names and
      content), `filterEx` the secondary filter pattern shared by the file-name
      and directory-name filters. */
  datatype Input = Input(
    regex: string,
    filterEx: string,
    filename: bool,            // report files whose name matches `regex`
    filterFileName: bool,      // scan content only of files whose name matches `filterEx`
    content: bool,             // report the matching lines of files
    directoryName: bool,       // report directories whose name matches `regex`
    filterDirectoryName: bool, // descend only into directories whose name matches `filterEx`
    recursive: bool            // descend into directories below the root
  )

  /** A path as the program uses it: the generic string (with `/`
      separators) that is printed, and the last component that is matched. */
  datatype Path = Path(generic: string, name: string)

  /** What opening a regular file for reading yields: nothing, when the
      stream is not good, or the characters it delivers. */
  datatype Stream = Unopenable | Opened(content: string)

  /** One directory entry, as its status classifies it. `Errored` is an entry
      whose status could not be read; `Special` is one that is neither a regular
      file nor a directory. A directory's children are the entries its listing
      yields, in listing order. */
  datatype Entry =
    | Errored(path: Path)
    | Special(path: Path)
    | RegularFile(path: Path, stream: Stream)
    | Directory(path: Path, children: seq<Entry>)

  /** A matching line: its text and its 0-based index in the file. */
  datatype Hit = Hit(text: string, line: nat)

  /** A unit of console output, written as a whole under the output lock:
      a bare path line, or a path line followed by one line per hit. */
  datatype Block =
    | PathLine(path: string)
    | ContentReport(path: string, hits: seq<Hit>)
}
