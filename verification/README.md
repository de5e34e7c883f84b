# fast_search search engine, modelled in Dafny

This project models the search engine of `search_task.cpp`, the core of a
recursive file search tool. Given a root entry, the engine walks directories
and regular files. It matches file names, directory names and file contents
against a pattern and prints matching paths and matching lines. The model
keeps the decisions and the output format and drops the threads, the console
and the Boost filesystem calls:

- the regular-expression test `find(text, pattern)` is a parameter of type
  `Matcher`, with no interpretation;
- the filesystem is an immutable tree of `Entry` values. Each entry is what
  `status` reports for it: an error, something that is neither a file nor a
  directory, a regular file with the stream opening it yields, or a directory
  with the entries its listing yields;
- console output is a sequence of `Block`s. Each block is one unit the
  program writes under the output lock, and `BlockFormat.Text` gives its
  characters.

Modules, leaf first:

- `SearchTypes` (`types.dfy`): configuration, entries, hits, blocks.
- `OutputPaths` (`paths.dfy`): `output_path`.
- `LineReader` (`lines.dfy`): the `getline` loop, with its inverse `Unlines`.
- `Decimal` (`decimal.dfy`): printing a line number, with its inverse parser.
- `ContentSearch` (`content.dfy`): `search_content`. It has a functional
  definition and the loop itself, and they are proved equal.
- `BlockFormat` (`blocks.dfy`): the text of a block, with a parser that reads a
  content block back.
- `FileSearch` (`filesearch.dfy`): `search_file`.
- `Traversal` (`traversal.dfy`): both `search` overloads, `search_directory`
  and the root call of `do_search`.
- `TraversalProperties` (`reach.dfy`): an independent description of which
  entries get searched. Completeness, soundness and pruning are proved
  against it.
- `OutputInvariants` (`once.dfy`): with unique paths, the output names each
  path at most once per kind of block.
- `Scenarios` (`scenarios.dfy`): concrete searches of a small tree.

Behaviour of the code worth noting:

- The code writes each block to the console as soon as it is decided. It does
  not collect a subtree's output and flush it once at the top.
- A directory's name block is written before the directory-name filter is
  consulted. So a directory that fails the filter can still be printed.
- The directory-name filter only acts in the visit of a directory: a directory
  that fails it is not listed, so nothing below it is searched. The visit of a
  file never looks at its parent's name, so a regular root file is searched
  whatever the directory-name filter says.
- Nested calls take the recursion flag from the configuration, and only the
  root call forces it on.
- A directory met with the flag off writes nothing at all, not even its name
  block.
- The directory-name filter keeps a directory whose name matches the filter
  pattern and cuts off one whose name does not. It is applied to the root too.
  So with filter pattern `sub` over a tree `root/sub/...`, unless `root` also
  matches `sub`, the root is cut off and nothing below it is searched.
  `Scenarios.FilteredRootScenario` shows this. `Scenarios.FilteredScenario`
  shows `sub` pruned by a filter the root passes and `sub` fails.

## Model

| member | source | states |
|---|---|---|
| OutputPaths.CString | search/search/search_task.cpp:13 | the path string is read as a C string: the longest prefix before the first NUL, the whole string when it has none |
| OutputPaths.ReplaceSeparators | search/search/search_task.cpp:14-17 | the result has the same length; each `/` becomes `\` and every other character is unchanged |
| OutputPaths.OutputPath | search/search/search_task.cpp:12-19 | the printed path has no `/` and no NUL. It agrees with the generic string position by position, with `/` mapped to `\`. It is as long as the generic string unless a NUL cut it short |
| OutputPaths.OutputPathIdempotent | search/search/search_task.cpp:12-19 | rewriting a printed path again leaves it unchanged |
| OutputPaths.OutputPathRoundTrip | search/search/search_task.cpp:12-19 | a generic path with no `\` and no NUL is recovered from its printed form by mapping `\` back to `/` |
| OutputPaths.OutputPathPlain | search/search/search_task.cpp:12-19 | a path with no `/` and no NUL prints as itself |
| OutputPaths.OutputPathJoin | search/search/search_task.cpp:12-19 | two NUL-free paths joined with `/` print as their printed forms joined with `\` |
| LineReader.GetLine | search/search/search_task.cpp:32 | one `getline` fails exactly when nothing is left to read. Otherwise it yields the characters up to the first newline and consumes that newline, or, when there is none, yields everything left and leaves nothing. The line holds no newline and strictly fewer characters remain |
| LineReader.Lines | search/search/search_task.cpp:32 | the lines the loop delivers contain no newline |
| LineReader.LinesOfUnlines | search/search/search_task.cpp:32 | newline-terminated lines are read back exactly |
| LineReader.UnlinesOfLines | search/search/search_task.cpp:32 | writing the delivered lines back with newlines gives the stream contents, plus one newline when they did not end with one. No character is lost or invented |
| Decimal.NatToString | search/search/search_task.cpp:62 | a printed line number is a non-empty run of decimal digits with no leading zero |
| Decimal.StringToNatOfNatToString | search/search/search_task.cpp:62 | a printed line number reads back as the number |
| ContentSearch.MatchesFrom | search/search/search_task.cpp:31-39 | the hits from a starting index on are strictly increasing. Each carries the text of the line at its index and that line matches. Every matching line from there on is reported |
| ContentSearch.ContentHits | search/search/search_task.cpp:21-42 | an unopenable stream gives no hits. Otherwise the hits are in strictly increasing index order, each index is below the number of lines read and carries that line's text, and index `i` is reported if and only if line `i` matches |
| ContentSearch.SearchContent | search/search/search_task.cpp:21-42 | the `getline` loop, whose counter advances after every line, returns the same report as `ContentHits`: empty when the stream is not good, otherwise exactly the matching lines with their 0-based indices |
| ContentSearch.ExtendWithMatch | search/search/search_task.cpp:33-38 | reading one more line that matches extends an exact report by that line's hit, numbered with the count of lines read before it, and the result is exact for the longer prefix |
| ContentSearch.ExtendWithoutMatch | search/search/search_task.cpp:33-38 | reading one more line that does not match leaves an exact report unchanged, and it stays exact for the longer prefix |
| ContentSearch.ReportsMatchesUnique | search/search/search_task.cpp:31-39 | the matching lines determine the report: two reports that are increasing, faithful and complete for the same lines are equal, so no line is duplicated or skipped |
| ContentSearch.ContentHitsUnique | search/search/search_task.cpp:26-41 | any result that is empty for an unopenable stream and reports exactly the matching lines otherwise equals `ContentHits` |
| BlockFormat.HitLine | search/search/search_task.cpp:62 | a report line starts with `line `, ends with the hit's text verbatim, and is exactly as long as `line `, the decimal index, ` : ` and the text together |
| BlockFormat.HitLines | search/search/search_task.cpp:61-63 | the report lines are empty exactly when there are no hits, and otherwise end in CRLF |
| BlockFormat.Text | search/search/search_task.cpp:49-62 | every block starts with the printed path followed by CRLF and ends in CRLF. A bare path line is exactly that; a content block with hits is longer |
| BlockFormat.ParseHitLineOfHitLine | search/search/search_task.cpp:62 | a `line <n> : <text>` line reads back as the hit it was printed for |
| BlockFormat.ContentReportRoundTrip | search/search/search_task.cpp:59-64 | when the path and the hit texts hold no line feed, a content block splits into exactly 1 + (number of hits) CRLF-terminated lines: the printed path, then one line per hit in hit order. It reads back as that path and exactly those hits |
| FileSearch.SearchFile | search/search/search_task.cpp:44-66 | the bare path line is written if and only if name matching is on and the name matches, whatever the file-name filter says. A content block is written if and only if content search is on, the filter lets the scan run and the scan has hits. That block comes last and holds the scan's hits. At most two blocks are written, all about this path |
| Traversal.DirectoryBlocks | search/search/search_task.cpp:69-72 | a directory writes its own bare path line if and only if directory-name matching is on and its name matches |
| Traversal.SearchDirectory | search/search/search_task.cpp:68-90 | a directory whose name matches writes its path line first, before the filter is consulted. A directory that fails the directory-name filter writes its name block at most and nothing of its children |
| Traversal.SearchWith | search/search/search_task.cpp:92-120 | dispatch: an errored status or an entry that is neither a file nor a directory writes nothing. A regular file is visited whatever the flag. A directory writes nothing unless the flag is set. The nested overload is this function with the configured flag |
| Traversal.SearchEntry | search/search/search_task.cpp:92-105 | the one-argument `search`: an errored status or an entry that is neither a file nor a directory writes nothing, a regular file is visited, and a directory is visited exactly when the configured recursion flag is on |
| Traversal.SearchChildren | search/search/search_task.cpp:78-88 | every block any child writes is in the children's output, and every block of that output was written by some child |
| Traversal.DoSearch | search/search/search_task.cpp:8 | the root call forces the flag on: a root directory is always visited, and when it passes the directory-name filter every child's output is in the result, whatever the configured flag. A root that is not a directory is searched like any nested entry |
| TraversalProperties.OwnBlocks | search/search/search_task.cpp:44-72 | every block an entry writes for itself carries that entry's path |
| TraversalProperties.ReachedBlocksAppear | search/search/search_task.cpp:78-85 | completeness: every block a reached entry writes for itself appears in the output of the search that reaches it |
| TraversalProperties.EveryBlockReached | search/search/search_task.cpp:68-120 | soundness: every block of the output is written for itself by some entry the traversal reaches |
| TraversalProperties.ReachedIsAt | search/search/search_task.cpp:79-84 | a reached entry is the entry at its address in the tree |
| TraversalProperties.ReachedThroughDescending | search/search/search_task.cpp:74-76 | every directory on the way to a reached entry passes the directory-name filter |
| TraversalProperties.PrunedSubtreeAbsent | search/search/search_task.cpp:74-76 | when paths are unique and a directory fails the directory-name filter, no entry strictly beneath it, at any depth, has a block in the root search's output |
| TraversalProperties.ReachedDepth | search/search/search_task.cpp:8 | the root is searched with the flag forced on and every other entry with the configured flag. With recursion off, nothing deeper than the root's immediate children is searched |
| TraversalProperties.ReachedFlag | search/search/search_task.cpp:84 | below a search made with the configured flag, every entry is searched with the configured flag |
| TraversalProperties.RootChildrenReached | search/search/search_task.cpp:8 | every immediate child of a root directory that passes the filter is searched with the configured flag, even when recursion is off, and all of its output appears in the root search's output |
| OutputInvariants.BlockPathBelow | search/search/search_task.cpp:44-72 | every block of a search carries the generic path of some entry of the tree searched |
| OutputInvariants.ChildrenBlockPath | search/search/search_task.cpp:78-85 | every block the children from a given index on write carries the path of an entry below one of those children |
| OutputInvariants.SearchOncePerKind | search/search/search_task.cpp:68-120 | when distinct places in the tree carry distinct paths, a search writes each generic path at most once as a bare path line and at most once as a content block |
| OutputInvariants.ChildrenOncePerKind | search/search/search_task.cpp:78-85 | under the same condition, the concatenated outputs of the children from a given index on name each path at most once per kind of block |
| OutputInvariants.OutputOncePerKind | search/search/search_task.cpp:8 | the root search's output names each generic path at most once per kind of block, whenever paths in the tree are unique. Two different generic paths can still print alike, such as `a\b` and `a/b` |
| OutputInvariants.MatchingFileNamedOnce | search/search/search_task.cpp:44-50 | a reached regular file whose name matches, with name matching on, appears in the root output as a bare path line exactly once |
| Scenarios.ContentScenario | search/search/search_task.cpp:44-90 | with content matching on and every name test off, the tree `root/a.txt` ("foo\nbar"), `root/sub/b.txt` ("foo") gives as a multiset exactly the two content blocks of `root/a.txt` and `root/sub/b.txt`, each with the single hit `line 0 : foo`. The program does not fix their order; in the model they come in listing order |
| Scenarios.FilteredScenario | search/search/search_task.cpp:74-76 | with a directory-name filter that the root passes and `sub` fails, only `root/a.txt` is reported |
| Scenarios.FilteredRootScenario | search/search/search_task.cpp:74-76 | with a directory-name filter the root fails, the output is empty whatever the files hold |
| Scenarios.UnreadableScenario | search/search/search_task.cpp:26-27 | when `a.txt` cannot be opened it writes nothing, and `root/sub/b.txt` is still reported |
| Scenarios.NonRecursiveScenario | search/search/search_task.cpp:8 | with recursion off the root is still expanded, so `root/a.txt` is reported, but `sub` is not entered |
| Scenarios.PrintedHit | search/search/search_task.cpp:62 | the hit at line 0 with text `foo` prints as `line 0 : foo` followed by CRLF |

## Left out

- Concurrency: `std::async`, the futures and the waits. Children are searched one after another in listing order. In the program, blocks of different files reach the console in a nondeterministic order, so the output properties are stated as membership, not position.
- The mutex, the `std::cout` writes and the `flush` are console I/O. The model turns each write made under `coutLock` into one `Block` appended to the output sequence.
- The model assumes that every locked write reaches the console whole and unmixed with other writes. The code does not guarantee this. Each content scan calls `stream.sync_with_stdio(false)` (search_task.cpp:28) from its own thread and outside the lock. That call is static and switches off the synchronisation of `std::cout` with C stdio for the whole process; in libstdc++ the first such call replaces the buffer of `std::cout`. Also, `std::cout.flush()` (search_task.cpp:89) runs without the lock, at the same time as the locked writes at lines 49, 60-62 and 71. Torn or interleaved console output is not modelled.
- BlockFormat.Text gives the characters inserted into `std::cout`, not the bytes that reach the console. Text-mode translation of the console stream is not modelled: on Windows each `\n` goes out as `\r\n`, so each printed line ends in CR CR LF.
- The regular-expression engine behind `find` is not shown. It is an uninterpreted `Matcher` parameter.
- Boost filesystem (`status`, `directory_iterator`, `filename`/`leaf`, `generic_string`). Each entry carries its own generic path and name, and `filename()` and `leaf()` are taken to be the same string. How a child's path is built from its parent's is not modelled.
- A directory listing that throws: the iterator's exception is captured in the future and never read. The model's children are the entries the listing yielded before it stopped, so an unlistable directory has none.
- `std::ifstream` is modelled as a stream that is either not good or delivers a fixed sequence of characters. Text-mode newline translation and read errors part way through a file are not modelled.
- `boost::pool_allocator`, `string_pool` and `reserve` only affect memory and speed.
- SearchContent: the line counter is an unbounded natural number. The source's `int` would overflow after 2^31 - 1 lines, which is undefined behaviour and is not modelled.
- BlockFormat.ContentReportRoundTrip: holds only for paths and hit texts without a line feed. With one, the printed block cannot be split back into its lines.
