/**
  The visit of one regular file: the name test, the file-name filter and the
  content scan, and the blocks they produce.
 */
module FileSearch {
  import opened SearchTypes
  import opened ContentSearch

  /** The file-name filter lets the content step run. */
  predicate PassesFileFilter(input: Input, find: Matcher, path: Path) {
    !input.filterFileName || find(path.name, input.filterEx)
  }

  /** The blocks the visit of a regular file writes, in the order it writes
      them: the name block first, then the content block. The name test is
      made before, and independently of, the file-name filter, which only
      suppresses the content step. */
  function SearchFile(input: Input, find: Matcher, path: Path, stream: Stream): (out: seq<Block>)
    ensures |out| <= 2
    ensures |out| == 2 ==> out[0].PathLine? && out[1].ContentReport?
    ensures forall k :: 0 <= k < |out| ==> out[k].path == path.generic
    ensures PathLine(path.generic) in out <==> input.filename && find(path.name, input.regex)
    ensures (exists k :: 0 <= k < |out| && out[k].ContentReport?) <==>
              input.content && PassesFileFilter(input, find, path) && ContentHits(stream, input.regex, find) != []
    ensures forall k :: 0 <= k < |out| && out[k].ContentReport? ==>
              k == |out| - 1 && out[k].hits == ContentHits(stream, input.regex, find)
  {
    var named := if input.filename && find(path.name, input.regex) then [PathLine(path.generic)] else [];
    if input.filterFileName && !find(path.name, input.filterEx) then named
    else if input.content then
      var hits := ContentHits(stream, input.regex, find);
      if |hits| > 0 then
        var out := named + [ContentReport(path.generic, hits)];
        assert out[|out| - 1].ContentReport?;
        out
      else named
    else named
  }
}
