/**
  The traversal: the two `search` dispatchers, the visit of a directory and
  the root call. Children are searched one after the other in listing order;
  the output is the sequence of blocks written, in that order.
 */
module Traversal {
  import opened SearchTypes
  import opened FileSearch

  /** The directory-name filter lets the traversal descend into `path`. */
  predicate Descends(input: Input, find: Matcher, path: Path) {
    !input.filterDirectoryName || find(path.name, input.filterEx)
  }

  /** The block a directory writes for its own name, made before the filter
      is consulted. */
  function DirectoryBlocks(input: Input, find: Matcher, path: Path): (out: seq<Block>)
    ensures |out| <= 1
    ensures out != [] <==> input.directoryName && find(path.name, input.regex)
    ensures forall k :: 0 <= k < |out| ==> out[k] == PathLine(path.generic)
  {
    if input.directoryName && find(path.name, input.regex) then [PathLine(path.generic)] else []
  }

  /** `search(path, recursive)`: an entry whose status is an error, or which
      is neither a regular file nor a directory, writes nothing; a regular file
      is visited whatever the flag; a directory is visited only when the flag
      is set. */
  function SearchWith(input: Input, find: Matcher, e: Entry, recursive: bool): (out: seq<Block>)
    ensures e.Errored? || e.Special? ==> out == []
    ensures e.Directory? && !recursive ==> out == []
    ensures e.RegularFile? ==> out == SearchFile(input, find, e.path, e.stream)
    decreases e, 0
  {
    match e
    case Directory(path, children) =>
      if recursive then SearchDirectory(input, find, path, children) else []
    case RegularFile(path, stream) => SearchFile(input, find, path, stream)
    case _ => []
  }

  /** `search(path)`: the nested dispatch, which takes the recursion flag
      from the configuration. */
  function SearchEntry(input: Input, find: Matcher, e: Entry): (out: seq<Block>)
    ensures e.Errored? || e.Special? ==> out == []
    ensures e.RegularFile? ==> out == SearchFile(input, find, e.path, e.stream)
    ensures e.Directory? && input.recursive ==> out == SearchDirectory(input, find, e.path, e.children)
    ensures e.Directory? && !input.recursive ==> out == []
    decreases e, 1
  {
    SearchWith(input, find, e, input.recursive)
  }

  /** The visit of a directory: its name block, then, unless the
      directory-name filter cuts it off, the output of every child. */
  function SearchDirectory(input: Input, find: Matcher, path: Path, children: seq<Entry>): (out: seq<Block>)
    ensures input.directoryName && find(path.name, input.regex) ==> out != [] && out[0] == PathLine(path.generic)
    ensures !Descends(input, find, path) ==> out == DirectoryBlocks(input, find, path)
    decreases children, 1
  {
    var own := DirectoryBlocks(input, find, path);
    if input.filterDirectoryName && !find(path.name, input.filterEx) then own
    else own + SearchChildren(input, find, children)
  }

  /** The children's outputs, concatenated in listing order. */
  function SearchChildren(input: Input, find: Matcher, children: seq<Entry>): (out: seq<Block>)
    ensures forall i, b :: 0 <= i < |children| && b in SearchEntry(input, find, children[i]) ==> b in out
    ensures forall b :: b in out ==> exists i :: 0 <= i < |children| && b in SearchEntry(input, find, children[i])
    decreases children, 0
  {
    if children == [] then []
    else SearchEntry(input, find, children[0]) + SearchChildren(input, find, children[1..])
  }

  /** The root call, which forces the recursion flag on. */
  function DoSearch(input: Input, find: Matcher, root: Entry): (out: seq<Block>)
    ensures root.Directory? ==> out == SearchDirectory(input, find, root.path, root.children)
    ensures !root.Directory? ==> out == SearchEntry(input, find, root)
    ensures root.Directory? && Descends(input, find, root.path) ==>
              forall i, b :: 0 <= i < |root.children| && b in SearchEntry(input, find, root.children[i]) ==> b in out
  {
    SearchWith(input, find, root, true)
  }
}
