/**
  Concrete searches over a small tree: `root` holding the file `a.txt` with
  contents "foo\nbar" and the directory `sub` holding the file `b.txt` with
  contents "foo". The matcher is left open; each scenario only says how it
  answers on the strings the search actually tests.
 */
module Scenarios {
  import opened SearchTypes
  import opened LineReader
  import opened ContentSearch
  import opened Decimal
  import opened BlockFormat
  import opened FileSearch
  import opened Traversal

  function FileA(stream: Stream): Entry {
    RegularFile(Path("root/a.txt", "a.txt"), stream)
  }

  const FileB: Entry := RegularFile(Path("root/sub/b.txt", "b.txt"), Opened("foo"))

  const Sub: Entry := Directory(Path("root/sub", "sub"), [FileB])

  function Root(stream: Stream): Entry {
    Directory(Path("root", "root"), [FileA(stream), Sub])
  }

  /** Content matching on, every name test and filter off. */
  function ContentOnly(recursive: bool): Input {
    Input("foo", "", false, false, true, false, false, recursive)
  }

  const ReportA: Block := ContentReport("root/a.txt", [Hit("foo", 0)])
  const ReportB: Block := ContentReport("root/sub/b.txt", [Hit("foo", 0)])

  lemma LinesOfA()
    ensures Lines("foo\nbar") == ["foo", "bar"]
  {
    var s := "foo\nbar";
    assert NewlineIndex(s) == 3;
    assert s[..3] == "foo" && s[4..] == "bar";
    assert GetLine(s) == Some(("foo", "bar"));
    assert NewlineIndex("bar") == 3;
    assert GetLine("bar") == Some(("bar", ""));
  }

  lemma LinesOfB()
    ensures Lines("foo") == ["foo"]
  {
    assert NewlineIndex("foo") == 3;
    assert GetLine("foo") == Some(("foo", ""));
  }

  lemma HitsOfA(find: Matcher)
    requires find("foo", "foo") && !find("bar", "foo")
    ensures ContentHits(Opened("foo\nbar"), "foo", find) == [Hit("foo", 0)]
  {
    LinesOfA();
    var ab := ["foo", "bar"];
    assert MatchesFrom(ab, 2, "foo", find) == [];
    assert MatchesFrom(ab, 1, "foo", find) == [];
  }

  lemma HitsOfB(find: Matcher)
    requires find("foo", "foo")
    ensures ContentHits(Opened("foo"), "foo", find) == [Hit("foo", 0)]
  {
    LinesOfB();
    assert MatchesFrom(["foo"], 1, "foo", find) == [];
  }

  /** Content-only searches of `a.txt` and of `b.txt`, nested or not. */
  lemma SearchOfA(input: Input, find: Matcher)
    requires input.regex == "foo" && !input.filename && !input.filterFileName && input.content
    requires find("foo", "foo") && !find("bar", "foo")
    ensures SearchEntry(input, find, FileA(Opened("foo\nbar"))) == [ReportA]
  {
    HitsOfA(find);
    assert SearchEntry(input, find, FileA(Opened("foo\nbar")))
        == SearchFile(input, find, Path("root/a.txt", "a.txt"), Opened("foo\nbar"));
  }

  lemma SearchOfUnreadableA(input: Input, find: Matcher)
    requires !input.filename
    ensures SearchEntry(input, find, FileA(Unopenable)) == []
  {
    assert SearchEntry(input, find, FileA(Unopenable))
        == SearchFile(input, find, Path("root/a.txt", "a.txt"), Unopenable);
  }

  lemma SearchOfB(input: Input, find: Matcher)
    requires input.regex == "foo" && !input.filename && !input.filterFileName && input.content
    requires find("foo", "foo")
    ensures SearchEntry(input, find, FileB) == [ReportB]
  {
    HitsOfB(find);
    assert SearchEntry(input, find, FileB)
        == SearchFile(input, find, Path("root/sub/b.txt", "b.txt"), Opened("foo"));
  }

  /** The search of the root is its children's output, in listing order. */
  lemma RootSearch(input: Input, find: Matcher, stream: Stream)
    requires !input.directoryName && Descends(input, find, Path("root", "root"))
    ensures DoSearch(input, find, Root(stream))
         == SearchEntry(input, find, FileA(stream)) + SearchEntry(input, find, Sub)
  {
    var children := [FileA(stream), Sub];
    assert DoSearch(input, find, Root(stream)) == SearchDirectory(input, find, Path("root", "root"), children);
    assert DirectoryBlocks(input, find, Path("root", "root")) == [];
    assert children[1..] == [Sub] && children[1..][1..] == [];
    assert SearchChildren(input, find, children)
        == SearchEntry(input, find, FileA(stream)) + SearchChildren(input, find, [Sub]);
    assert SearchChildren(input, find, [Sub]) == SearchEntry(input, find, Sub);
  }

  /** The search of `sub` when it is descended into. */
  lemma SubSearch(input: Input, find: Matcher)
    requires input.recursive && !input.directoryName && Descends(input, find, Path("root/sub", "sub"))
    ensures SearchEntry(input, find, Sub) == SearchEntry(input, find, FileB)
  {
    assert SearchEntry(input, find, Sub) == SearchDirectory(input, find, Path("root/sub", "sub"), [FileB]);
    assert DirectoryBlocks(input, find, Path("root/sub", "sub")) == [];
    assert [FileB][1..] == [];
    assert SearchChildren(input, find, [FileB]) == SearchEntry(input, find, FileB);
  }

  lemma PrintedHit()
    ensures HitLines([Hit("foo", 0)]) == "line 0 : foo\r\n"
  {
    assert NatToString(0) == "0";
  }

  /** Both files report their first line, each followed by the printed hit
      `line 0 : foo`. The program promises the two blocks and not their
      order; the model writes them in listing order. */
  lemma ContentScenario(find: Matcher)
    requires find("foo", "foo") && !find("bar", "foo")
    ensures multiset(DoSearch(ContentOnly(true), find, Root(Opened("foo\nbar")))) == multiset{ReportA, ReportB}
    ensures DoSearch(ContentOnly(true), find, Root(Opened("foo\nbar"))) == [ReportA, ReportB]
    ensures HitLines(ReportA.hits) == HitLines(ReportB.hits) == "line 0 : foo\r\n"
  {
    var input := ContentOnly(true);
    SearchOfA(input, find);
    SearchOfB(input, find);
    SubSearch(input, find);
    RootSearch(input, find, Opened("foo\nbar"));
    PrintedHit();
  }

  /** With the directory-name filter on, a filter the root passes and `sub`
      fails cuts off `sub` and everything in it. */
  lemma FilteredScenario(find: Matcher, filter: string)
    requires find("foo", "foo") && !find("bar", "foo")
    requires find("root", filter) && !find("sub", filter)
    ensures var input := Input("foo", filter, false, false, true, false, true, true);
            DoSearch(input, find, Root(Opened("foo\nbar"))) == [ReportA]
  {
    var input := Input("foo", filter, false, false, true, false, true, true);
    SearchOfA(input, find);
    RootSearch(input, find, Opened("foo\nbar"));
    assert SearchEntry(input, find, Sub) == DirectoryBlocks(input, find, Path("root/sub", "sub"));
  }

  /** The root goes through the directory-name filter too: a filter it
      fails leaves the output empty, whatever the files hold. */
  lemma FilteredRootScenario(find: Matcher, filter: string, stream: Stream)
    requires !find("root", filter)
    ensures var input := Input("foo", filter, false, false, true, false, true, true);
            DoSearch(input, find, Root(stream)) == []
  {
  }

  /** A file that cannot be opened writes nothing, and its sibling directory
      is still searched. */
  lemma UnreadableScenario(find: Matcher)
    requires find("foo", "foo") && !find("bar", "foo")
    ensures DoSearch(ContentOnly(true), find, Root(Unopenable)) == [ReportB]
  {
    var input := ContentOnly(true);
    SearchOfUnreadableA(input, find);
    SearchOfB(input, find);
    SubSearch(input, find);
    RootSearch(input, find, Unopenable);
  }

  /** With recursion off the root is still expanded, but `sub` is not. */
  lemma NonRecursiveScenario(find: Matcher)
    requires find("foo", "foo") && !find("bar", "foo")
    ensures DoSearch(ContentOnly(false), find, Root(Opened("foo\nbar"))) == [ReportA]
  {
    var input := ContentOnly(false);
    SearchOfA(input, find);
    RootSearch(input, find, Opened("foo\nbar"));
  }
}
