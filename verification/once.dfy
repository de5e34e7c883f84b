/**
  The output names a path at most once per kind of block: once as a bare
  path line and once as a content report, when both tests are configured and
  both match. This holds whenever distinct places in the tree carry distinct
  paths.
 */
module OutputInvariants {
  import opened SearchTypes
  import opened FileSearch
  import opened Traversal
  import opened TraversalProperties

  /** No two blocks of `out` of the same kind name the same path. */
  ghost predicate OncePerKind(out: seq<Block>) {
    forall i, j ::
      (0 <= i < |out| && 0 <= j < |out| &&
       out[i].path == out[j].path && out[i].ContentReport? == out[j].ContentReport?) ==> i == j
  }

  /** `g` is the path of the entry at `addr` below `e`. */
  ghost predicate PathAt(e: Entry, addr: seq<nat>, g: string) {
    At(e, addr).Some? && At(e, addr).value.path.generic == g
  }

  lemma ConcatOncePerKind(a: seq<Block>, b: seq<Block>)
    requires OncePerKind(a) && OncePerKind(b)
    requires forall i, j :: 0 <= i < |a| && 0 <= j < |b| ==> a[i].path != b[j].path
    ensures OncePerKind(a + b)
  {
    var c := a + b;
    forall i, j | 0 <= i < |c| && 0 <= j < |c| && c[i].path == c[j].path && c[i].ContentReport? == c[j].ContentReport?
      ensures i == j
    {
      if i >= |a| && j >= |a| {
        assert c[i] == b[i - |a|] && c[j] == b[j - |a|];
      }
    }
  }

  lemma AtChild(e: Entry, i: nat, addr: seq<nat>)
    requires e.Directory? && i < |e.children|
    ensures At(e, [i] + addr) == At(e.children[i], addr)
  {
    assert ([i] + addr)[1..] == addr;
  }

  lemma UniqueChild(e: Entry, i: nat)
    requires e.Directory? && i < |e.children| && UniquePaths(e)
    ensures UniquePaths(e.children[i])
  {
    var child := e.children[i];
    forall a1, a2 | At(child, a1).Some? && At(child, a2).Some? &&
                    At(child, a1).value.path.generic == At(child, a2).value.path.generic
      ensures a1 == a2
    {
      AtChild(e, i, a1);
      AtChild(e, i, a2);
      assert [i] + a1 == [i] + a2;
      assert a1 == ([i] + a1)[1..];
    }
  }

  /** Every block of a search carries the path of some entry in the tree
      searched. */
  lemma BlockPathBelow(input: Input, find: Matcher, e: Entry, recursive: bool, b: Block)
    requires b in SearchWith(input, find, e, recursive)
    ensures exists addr :: PathAt(e, addr, b.path)
  {
    EveryBlockReached(input, find, e, recursive, b);
    var addr, target, flag :| Reaches(input, find, e, recursive, addr, target, flag)
                              && b in OwnBlocks(input, find, target, flag);
    ReachedIsAt(input, find, e, recursive, addr, target, flag);
    assert PathAt(e, addr, b.path);
  }

  /** Every block of the children from index `k` on carries the path of an
      entry below one of those children. */
  lemma ChildrenBlockPath(input: Input, find: Matcher, e: Entry, k: nat, b: Block)
    requires e.Directory? && k <= |e.children|
    requires b in SearchChildren(input, find, e.children[k..])
    ensures exists addr :: PathAt(e, addr, b.path) && |addr| > 0 && k <= addr[0]
  {
    var rest := e.children[k..];
    assert b in SearchChildren(input, find, rest);
    var i :| 0 <= i < |rest| && b in SearchEntry(input, find, rest[i]);
    assert rest[i] == e.children[k + i];
    BlockPathBelow(input, find, e.children[k + i], input.recursive, b);
    var a :| PathAt(e.children[k + i], a, b.path);
    ChildPathAt(e, k + i, a, b.path);
  }

  lemma ChildPathAt(e: Entry, i: nat, addr: seq<nat>, g: string)
    requires e.Directory? && i < |e.children|
    requires PathAt(e.children[i], addr, g)
    ensures PathAt(e, [i] + addr, g) && ([i] + addr)[0] == i
  {
    AtChild(e, i, addr);
  }

  /** A search of a tree with unique paths names each path at most once
      per kind of block. */
  lemma {:induction false} SearchOncePerKind(input: Input, find: Matcher, e: Entry, recursive: bool)
    requires UniquePaths(e)
    ensures OncePerKind(SearchWith(input, find, e, recursive))
    decreases e, 1
  {
    match e
    case Directory(path, children) =>
      if recursive {
        var own := DirectoryBlocks(input, find, path);
        if Descends(input, find, path) {
          var rest := SearchChildren(input, find, children);
          assert SearchWith(input, find, e, recursive) == own + rest;
          assert children[0..] == children;
          ChildrenOncePerKind(input, find, e, 0);
          forall i, j | 0 <= i < |own| && 0 <= j < |rest|
            ensures own[i].path != rest[j].path
          {
            ChildrenBlockPath(input, find, e, 0, rest[j]);
            var addr :| PathAt(e, addr, rest[j].path) && |addr| > 0;
            assert PathAt(e, [], own[i].path);
          }
          ConcatOncePerKind(own, rest);
        }
      }
    case _ =>
  }

  lemma {:induction false} ChildrenOncePerKind(input: Input, find: Matcher, e: Entry, k: nat)
    requires e.Directory? && UniquePaths(e) && k <= |e.children|
    ensures OncePerKind(SearchChildren(input, find, e.children[k..]))
    decreases e, 0, |e.children| - k
  {
    if k < |e.children| {
      var first := SearchEntry(input, find, e.children[k]);
      var rest := SearchChildren(input, find, e.children[k+1..]);
      assert e.children[k..][1..] == e.children[k+1..];
      assert SearchChildren(input, find, e.children[k..]) == first + rest;
      UniqueChild(e, k);
      SearchOncePerKind(input, find, e.children[k], input.recursive);
      ChildrenOncePerKind(input, find, e, k + 1);
      forall i, j | 0 <= i < |first| && 0 <= j < |rest|
        ensures first[i].path != rest[j].path
      {
        BlockPathBelow(input, find, e.children[k], input.recursive, first[i]);
        var a1 :| PathAt(e.children[k], a1, first[i].path);
        ChildPathAt(e, k, a1, first[i].path);
        ChildrenBlockPath(input, find, e, k + 1, rest[j]);
        var a2 :| PathAt(e, a2, rest[j].path) && |a2| > 0 && k + 1 <= a2[0];
      }
      ConcatOncePerKind(first, rest);
    }
  }

  /** A path appears in the output at most once per test it satisfies. */
  lemma OutputOncePerKind(input: Input, find: Matcher, root: Entry)
    requires UniquePaths(root)
    ensures OncePerKind(DoSearch(input, find, root))
  {
    SearchOncePerKind(input, find, root, true);
  }

  /** A regular file that the traversal reaches, with name matching on and a
      matching name, appears exactly once in the output as a bare path line. */
  lemma MatchingFileNamedOnce(input: Input, find: Matcher, root: Entry,
                              addr: seq<nat>, file: Entry, flag: bool)
    requires UniquePaths(root)
    requires Reaches(input, find, root, true, addr, file, flag)
    requires file.RegularFile? && input.filename && find(file.path.name, input.regex)
    ensures PathLine(file.path.generic) in DoSearch(input, find, root)
    ensures var out := DoSearch(input, find, root);
            forall i, j ::
              (0 <= i < |out| && 0 <= j < |out| &&
               out[i] == PathLine(file.path.generic) && out[j] == PathLine(file.path.generic)) ==> i == j
  {
    ReachedBlocksAppear(input, find, root, true, addr, file, flag);
    assert PathLine(file.path.generic) in OwnBlocks(input, find, file, flag);
    OutputOncePerKind(input, find, root);
  }
}
