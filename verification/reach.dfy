/**
  Which entries the traversal searches, stated independently of the
  recursive search: an entry is reached along an address (a sequence of
  child indices) when every directory on the way is searched with the
  recursion flag set and passes the directory-name filter. The search output
  is then exactly the blocks reached entries write for themselves.
 */
module TraversalProperties {
  import opened SearchTypes
  import opened FileSearch
  import opened Traversal

  /** The entry at `addr` below `e` in the filesystem tree, if any. */
  function At(e: Entry, addr: seq<nat>): Option<Entry>
    decreases |addr|
  {
    if addr == [] then Some(e)
    else if e.Directory? && addr[0] < |e.children| then At(e.children[addr[0]], addr[1..])
    else None
  }

  /** `target` is searched, with recursion flag `flag`, when the search of
      `e` with flag `recursive` runs, and sits at `addr` below `e`. */
  ghost predicate Reaches(input: Input, find: Matcher, e: Entry, recursive: bool,
                          addr: seq<nat>, target: Entry, flag: bool)
    decreases |addr|
  {
    if addr == [] then target == e && flag == recursive
    else
      && e.Directory?
      && recursive
      && Descends(input, find, e.path)
      && addr[0] < |e.children|
      && Reaches(input, find, e.children[addr[0]], input.recursive, addr[1..], target, flag)
  }

  /** The blocks an entry writes for itself when searched with `flag`,
      leaving out what its children write. */
  function OwnBlocks(input: Input, find: Matcher, e: Entry, flag: bool): (out: seq<Block>)
    ensures forall k :: 0 <= k < |out| ==> out[k].path == e.path.generic
  {
    match e
    case RegularFile(path, stream) => SearchFile(input, find, path, stream)
    case Directory(path, _) => if flag then DirectoryBlocks(input, find, path) else []
    case _ => []
  }

  /** Distinct places in the tree carry distinct paths. */
  ghost predicate UniquePaths(root: Entry) {
    forall a1, a2 ::
      (At(root, a1).Some? && At(root, a2).Some? &&
       At(root, a1).value.path.generic == At(root, a2).value.path.generic) ==> a1 == a2
  }

  /** Completeness: every block a reached entry writes for itself is in the
      output. */
  lemma {:induction false} ReachedBlocksAppear(input: Input, find: Matcher, e: Entry, recursive: bool,
                                               addr: seq<nat>, target: Entry, flag: bool)
    requires Reaches(input, find, e, recursive, addr, target, flag)
    ensures forall b :: b in OwnBlocks(input, find, target, flag) ==> b in SearchWith(input, find, e, recursive)
    decreases |addr|
  {
    if addr != [] {
      var child := e.children[addr[0]];
      ReachedBlocksAppear(input, find, child, input.recursive, addr[1..], target, flag);
      assert forall b :: b in OwnBlocks(input, find, target, flag) ==> b in SearchEntry(input, find, e.children[addr[0]]);
    }
  }

  /** Soundness: every block of the output is written by some reached entry
      for itself. */
  lemma {:induction false} EveryBlockReached(input: Input, find: Matcher, e: Entry, recursive: bool, b: Block)
    requires b in SearchWith(input, find, e, recursive)
    ensures exists addr, target, flag :: Reaches(input, find, e, recursive, addr, target, flag)
              && b in OwnBlocks(input, find, target, flag)
    decreases e
  {
    if b in OwnBlocks(input, find, e, recursive) {
      assert Reaches(input, find, e, recursive, [], e, recursive);
    } else {
      FromChildren(input, find, e, recursive, b);
      var i :| 0 <= i < |e.children| && b in SearchEntry(input, find, e.children[i]);
      EveryBlockReached(input, find, e.children[i], input.recursive, b);
      var addr, target, flag :| Reaches(input, find, e.children[i], input.recursive, addr, target, flag)
                                && b in OwnBlocks(input, find, target, flag);
      ReachesThroughChild(input, find, e, recursive, i, addr, target, flag);
    }
  }

  /** A block of a search that the entry does not write for itself comes
      from the children of an expanded directory. */
  lemma FromChildren(input: Input, find: Matcher, e: Entry, recursive: bool, b: Block)
    requires b in SearchWith(input, find, e, recursive)
    requires b !in OwnBlocks(input, find, e, recursive)
    ensures e.Directory? && recursive && Descends(input, find, e.path)
    ensures b in SearchChildren(input, find, e.children)
  {
  }

  lemma ReachesThroughChild(input: Input, find: Matcher, e: Entry, recursive: bool,
                            i: nat, addr: seq<nat>, target: Entry, flag: bool)
    requires e.Directory? && recursive && Descends(input, find, e.path) && i < |e.children|
    requires Reaches(input, find, e.children[i], input.recursive, addr, target, flag)
    ensures Reaches(input, find, e, recursive, [i] + addr, target, flag)
  {
    assert ([i] + addr)[1..] == addr;
  }

  lemma {:induction false} ReachedIsAt(input: Input, find: Matcher, e: Entry, recursive: bool,
                                       addr: seq<nat>, target: Entry, flag: bool)
    requires Reaches(input, find, e, recursive, addr, target, flag)
    ensures At(e, addr) == Some(target)
    decreases |addr|
  {
    if addr != [] {
      ReachedIsAt(input, find, e.children[addr[0]], input.recursive, addr[1..], target, flag);
    }
  }

  /** Every directory on the way to a reached entry is searched with the
      flag set and passes the directory-name filter. */
  lemma {:induction false} ReachedThroughDescending(input: Input, find: Matcher, e: Entry, recursive: bool,
                                                    addr: seq<nat>, target: Entry, flag: bool, k: nat)
    requires Reaches(input, find, e, recursive, addr, target, flag)
    requires k < |addr|
    ensures At(e, addr[..k]).Some?
    ensures At(e, addr[..k]).value.Directory?
    ensures Descends(input, find, At(e, addr[..k]).value.path)
    decreases |addr|
  {
    if k > 0 {
      ReachedThroughDescending(input, find, e.children[addr[0]], input.recursive, addr[1..], target, flag, k - 1);
      assert addr[..k][1..] == addr[1..][..k-1];
    }
  }

  /** Pruning: when a directory fails the directory-name filter, no entry
      strictly below it, at any depth, has a block in the output. */
  lemma PrunedSubtreeAbsent(input: Input, find: Matcher, root: Entry, above: seq<nat>, below: seq<nat>)
    requires UniquePaths(root)
    requires At(root, above).Some? && At(root, above).value.Directory?
    requires !Descends(input, find, At(root, above).value.path)
    requires below != [] && At(root, above + below).Some?
    ensures forall b :: b in DoSearch(input, find, root) ==> b.path != At(root, above + below).value.path.generic
  {
    var addr0 := above + below;
    var t0 := At(root, addr0).value;
    forall b | b in DoSearch(input, find, root)
      ensures b.path != t0.path.generic
    {
      EveryBlockReached(input, find, root, true, b);
      var addr, target, flag :| Reaches(input, find, root, true, addr, target, flag)
                                && b in OwnBlocks(input, find, target, flag);
      ReachedIsAt(input, find, root, true, addr, target, flag);
      if b.path == t0.path.generic {
        var k :| 0 <= k < |OwnBlocks(input, find, target, flag)| && OwnBlocks(input, find, target, flag)[k] == b;
        assert target.path.generic == t0.path.generic;
        assert addr == addr0;
        assert addr[..|above|] == above;
        ReachedThroughDescending(input, find, root, true, addr, target, flag, |above|);
        assert false;
      }
    }
  }

  /** The root is always expanded; below it the configured flag decides. So
      with recursion off, only the root and its immediate children are
      searched, and each child with the flag off. */
  lemma {:induction false} ReachedDepth(input: Input, find: Matcher, root: Entry,
                                        addr: seq<nat>, target: Entry, flag: bool)
    requires Reaches(input, find, root, true, addr, target, flag)
    ensures flag == (addr == [] || input.recursive)
    ensures !input.recursive ==> |addr| <= 1
  {
    if addr != [] {
      var child := root.children[addr[0]];
      ReachedFlag(input, find, child, input.recursive, addr[1..], target, flag);
    }
  }

  lemma {:induction false} ReachedFlag(input: Input, find: Matcher, e: Entry, recursive: bool,
                                       addr: seq<nat>, target: Entry, flag: bool)
    requires Reaches(input, find, e, recursive, addr, target, flag)
    requires recursive == input.recursive
    ensures flag == input.recursive
    decreases |addr|
  {
    if addr != [] {
      ReachedFlag(input, find, e.children[addr[0]], input.recursive, addr[1..], target, flag);
    }
  }

  /** Every immediate child of a root directory that passes the filter is
      searched, with the configured flag, whatever that flag is. */
  lemma RootChildrenReached(input: Input, find: Matcher, root: Entry, i: nat)
    requires root.Directory? && Descends(input, find, root.path) && i < |root.children|
    ensures Reaches(input, find, root, true, [i], root.children[i], input.recursive)
    ensures forall b :: b in SearchEntry(input, find, root.children[i]) ==> b in DoSearch(input, find, root)
  {
    assert [i][1..] == [];
    assert DoSearch(input, find, root) == SearchDirectory(input, find, root.path, root.children);
    assert SearchDirectory(input, find, root.path, root.children)
        == DirectoryBlocks(input, find, root.path) + SearchChildren(input, find, root.children);
  }
}
