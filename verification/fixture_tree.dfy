/**
 The fixture tree as the navigator receives it, and the per-node decisions
 it makes before drawing anything: the order of a node's sub-directories,
 a node's path and expansion state, indentation and selection.

 A JavaScript object is an ordered list of distinct keys with values, so a
 node's `dirs` and `items` objects are modelled as sequences of entries in
 key order.
 */
module FixtureTree {
  import opened Lex
  import opened Sorting
  import Paths

  datatype Option<+T> = None | Some(value: T)

  /** A fixture: its file path and, for a named export, its name. */
  datatype FixtureId = FixtureId(path: string, name: Option<string>)

  /** One entry of a node's `items` object: fixture name to fixture id. */
  datatype Item = Item(name: string, fixtureId: FixtureId)

  /** A directory of the tree: fixtures directly in it and its sub-directories. */
  datatype FixtureNode = FixtureNode(items: seq<Item>, dirs: seq<Dir>)

  /** One entry of a node's `dirs` object: directory name to node. */
  datatype Dir = Dir(name: string, node: FixtureNode)

  /**
   Which nodes are open, keyed by node path; a missing key means closed
   (properties inherited from `Object.prototype` are not modelled).
   */
  type TreeExpansion = map<string, bool>

  /** `Object.keys(dirs)`, in key order. */
  function DirNames(dirs: seq<Dir>): (r: seq<string>)
    ensures |r| == |dirs|
    ensures forall i :: 0 <= i < |dirs| ==> r[i] == dirs[i].name
  {
    seq(|dirs|, i requires 0 <= i < |dirs| => dirs[i].name)
  }

  /** Object keys are distinct. */
  ghost predicate DistinctNames(dirs: seq<Dir>) {
    forall i, j :: 0 <= i < j < |dirs| ==> dirs[i].name != dirs[j].name
  }

  /** `dirs[name]` for a key that is present. */
  function Lookup(dirs: seq<Dir>, name: string): (r: FixtureNode)
    requires name in DirNames(dirs)
    ensures Dir(name, r) in dirs
    decreases |dirs|
  {
    if dirs[0].name == name then dirs[0].node
    else
      assert DirNames(dirs[1..]) == DirNames(dirs)[1..];
      Lookup(dirs[1..], name)
  }

  /** With distinct keys, the value found is the one stored under the key. */
  lemma {:induction false} LookupFindsEntry(dirs: seq<Dir>, name: string, child: FixtureNode)
    requires DistinctNames(dirs)
    requires Dir(name, child) in dirs
    ensures name in DirNames(dirs) && Lookup(dirs, name) == child
    decreases |dirs|
  {
    var i :| 0 <= i < |dirs| && dirs[i] == Dir(name, child);
    assert DirNames(dirs)[i] == name;
    if i > 0 {
      assert dirs[1..][i - 1] == dirs[i];
      assert DirNames(dirs[1..]) == DirNames(dirs)[1..];
      LookupFindsEntry(dirs[1..], name, child);
    }
  }

  /**
   `calcNodeDepth`: 1 for a node with sub-directories, 0 otherwise. It
   tells the two kinds of directory apart and nothing more.
   */
  function NodeDepth(n: FixtureNode): (d: int)
    ensures d == 0 || d == 1
  {
    if |n.dirs| > 0 then 1 else 0
  }

  /** How many directory levels lie below `n` (a reference notion of depth). */
  function Height(n: FixtureNode): nat
    decreases n, 1, 0
  {
    HeightFrom(n, 0)
  }

  /** The height contributed by the sub-directories `n.dirs[k..]`. */
  function HeightFrom(n: FixtureNode, k: nat): nat
    decreases n, 0, |n.dirs| - k
  {
    if k >= |n.dirs| then 0
    else
      var here := 1 + Height(n.dirs[k].node);
      var rest := HeightFrom(n, k + 1);
      if here < rest then rest else here
  }

  /** The depth used for sorting is the height clipped to 1. */
  lemma NodeDepthIsClippedHeight(n: FixtureNode)
    ensures NodeDepth(n) == (if Height(n) == 0 then 0 else 1)
  {
    if |n.dirs| > 0 {
      assert HeightFrom(n, 0) >= 1;
    }
  }

  /** A directory two levels deep and one a single level deep sort alike. */
  lemma NodeDepthIgnoresDeeperNesting()
    ensures var leaf := FixtureNode([], []);
            var shallow := FixtureNode([], [Dir("a", leaf)]);
            var deep := FixtureNode([], [Dir("a", shallow)]);
            Height(shallow) == 1 && Height(deep) == 2 && NodeDepth(shallow) == NodeDepth(deep) == 1
  {
    var leaf := FixtureNode([], []);
    var shallow := FixtureNode([], [Dir("a", leaf)]);
    var deep := FixtureNode([], [Dir("a", shallow)]);
    assert Height(leaf) == 0;
    assert HeightFrom(shallow, 1) == 0;
    assert Height(shallow) == 1;
    assert HeightFrom(deep, 1) == 0;
  }

  /** The sort key of directory `name`: `calcNodeDepth(dirs[name])`. */
  function DirDepth(dirs: seq<Dir>, name: string): int {
    // Only names taken from `dirs` are ever passed; the fallback is unused.
    if name in DirNames(dirs) then NodeDepth(Lookup(dirs, name)) else 0
  }

  /** `DirDepth` as the function the depth comparator reads. */
  function DepthKey(dirs: seq<Dir>): string -> int {
    name => DirDepth(dirs, name)
  }

  /**
   `getSortedNodeDirNames`: the keys of `node.dirs`, sorted alphabetically
   and then stably by depth, deepest first.
   */
  function SortedDirNames(node: FixtureNode): (r: seq<string>)
    ensures multiset(r) == multiset(DirNames(node.dirs))
    ensures forall x :: x in r <==> x in DirNames(node.dirs)
  {
    var r := SortBy(SortBy(DirNames(node.dirs), CompareStrings), ByKeyDescending(DepthKey(node.dirs)));
    assert forall x :: x in r <==> x in multiset(r);
    r
  }

  /** Directories with sub-directories first, each group in lexicographic order. */
  lemma SortedDirNamesOrder(node: FixtureNode)
    ensures KeyThenLexSorted(SortedDirNames(node), DepthKey(node.dirs))
  {
    AlphabeticalThenByKeyIsKeyThenLexSorted(DirNames(node.dirs), DepthKey(node.dirs));
  }

  /** Every directory that has sub-directories is listed before every one that has none. */
  lemma DirsWithSubdirsFirst(node: FixtureNode)
    ensures var r := SortedDirNames(node);
            forall i, j :: 0 <= i < j < |r| && r[j] in DirNames(node.dirs) && |Lookup(node.dirs, r[j]).dirs| > 0 ==>
              r[i] in DirNames(node.dirs) && |Lookup(node.dirs, r[i]).dirs| > 0
  {
    var r := SortedDirNames(node);
    SortedDirNamesOrder(node);
    forall i, j | 0 <= i < j < |r| && r[j] in DirNames(node.dirs) && |Lookup(node.dirs, r[j]).dirs| > 0
      ensures r[i] in DirNames(node.dirs) && |Lookup(node.dirs, r[i]).dirs| > 0
    {
      assert DepthKey(node.dirs)(r[j]) <= DepthKey(node.dirs)(r[i]);
    }
  }

  /** Among directories of the same kind, names are in lexicographic order. */
  lemma SameKindAlphabetical(node: FixtureNode)
    ensures var r := SortedDirNames(node);
            forall i, j :: 0 <= i < j < |r| && DirDepth(node.dirs, r[i]) == DirDepth(node.dirs, r[j]) ==>
              !LexLess(r[j], r[i])
  {
    var r := SortedDirNames(node);
    SortedDirNamesOrder(node);
    assert forall i :: 0 <= i < |r| ==> DepthKey(node.dirs)(r[i]) == DirDepth(node.dirs, r[i]);
  }

  /** In a sequence of distinct strings each one occurs once. */
  lemma {:induction false} DistinctOccursOnce(s: seq<string>, x: string)
    requires forall i, j :: 0 <= i < j < |s| ==> s[i] != s[j]
    ensures multiset(s)[x] == if x in s then 1 else 0
    decreases |s|
  {
    if s != [] {
      assert s == [s[0]] + s[1..];
      DistinctOccursOnce(s[1..], x);
    }
  }

  /** Two objects with the same entries have the same keys, counted alike. */
  lemma SameEntriesSameNames(d1: seq<Dir>, d2: seq<Dir>)
    requires DistinctNames(d1) && DistinctNames(d2)
    requires forall e :: e in d1 <==> e in d2
    ensures forall x :: x in DirNames(d1) <==> x in DirNames(d2)
    ensures multiset(DirNames(d1)) == multiset(DirNames(d2))
  {
    forall x | x in DirNames(d1)
      ensures x in DirNames(d2)
    {
      var i :| 0 <= i < |d1| && DirNames(d1)[i] == x;
      assert d1[i] in d2;
      var j :| 0 <= j < |d2| && d2[j] == d1[i];
      assert DirNames(d2)[j] == x;
    }
    forall x | x in DirNames(d2)
      ensures x in DirNames(d1)
    {
      var i :| 0 <= i < |d2| && DirNames(d2)[i] == x;
      assert d2[i] in d1;
      var j :| 0 <= j < |d1| && d1[j] == d2[i];
      assert DirNames(d1)[j] == x;
    }
    forall x
      ensures multiset(DirNames(d1))[x] == multiset(DirNames(d2))[x]
    {
      DistinctOccursOnce(DirNames(d1), x);
      DistinctOccursOnce(DirNames(d2), x);
    }
  }

  /**
   The displayed order of sub-directories depends only on which entries
   `dirs` holds, not on the order of its keys.
   */
  lemma SortedDirNamesIgnoresKeyOrder(n1: FixtureNode, n2: FixtureNode)
    requires DistinctNames(n1.dirs) && DistinctNames(n2.dirs)
    requires forall e :: e in n1.dirs <==> e in n2.dirs
    ensures SortedDirNames(n1) == SortedDirNames(n2)
  {
    var d1, d2 := n1.dirs, n2.dirs;
    SameEntriesSameNames(d1, d2);
    SameEntriesSameDepths(d1, d2);
    var r1, r2 := SortedDirNames(n1), SortedDirNames(n2);
    SortedDirNamesOrder(n1);
    SortedDirNamesOrder(n2);
    KeyThenLexSortedSameKeys(r2, DepthKey(d2), DepthKey(d1));
    KeyThenLexSortedUnique(r1, r2, DepthKey(d1));
  }

  /** Two entry lists with the same entries and distinct names give every name the same depth. */
  lemma SameEntriesSameDepths(d1: seq<Dir>, d2: seq<Dir>)
    requires DistinctNames(d1) && DistinctNames(d2)
    requires forall e :: e in d1 <==> e in d2
    ensures forall x :: DepthKey(d1)(x) == DepthKey(d2)(x)
  {
    SameEntriesSameNames(d1, d2);
    forall x
      ensures DirDepth(d1, x) == DirDepth(d2, x)
    {
      if x in DirNames(d1) {
        var c := Lookup(d1, x);
        LookupFindsEntry(d2, x, c);
      }
    }
  }

  /** `getLeftPadding`: pixels of left padding for an indentation level. */
  function LeftPadding(indent: int): int {
    8 + indent * 16
  }

  /** Each level of indentation adds 16 pixels, so padding grows strictly with depth. */
  lemma LeftPaddingIncreasing(i: int, j: int)
    requires i < j
    ensures LeftPadding(i) + 16 <= LeftPadding(j)
  {
  }

  /** `getNodePath`: the names from the root to the node, joined with '/'. */
  function NodePath(parents: seq<string>): string {
    Paths.Join(parents)
  }

  /**
   `isRootNode || treeExpansion[nodePath]`: the root is always open; any
   other node is open when the map holds `true` under its path.
   */
  predicate IsExpanded(parents: seq<string>, expansion: TreeExpansion) {
    |parents| == 0 || (NodePath(parents) in expansion && expansion[NodePath(parents)])
  }

  /**
   Writing a value under a node's path opens or closes that node and no
   other, provided directory names do not contain the separator.
   */
  lemma ExpansionIsPerNode(p: seq<string>, q: seq<string>, expansion: TreeExpansion, open: bool)
    requires |p| > 0
    requires Paths.SeparatorFree(p) && Paths.SeparatorFree(q)
    ensures IsExpanded(p, expansion[NodePath(p) := open]) == open
    ensures q != p ==> IsExpanded(q, expansion[NodePath(p) := open]) == IsExpanded(q, expansion)
  {
    if q != p && |q| > 0 && NodePath(q) == NodePath(p) {
      Paths.JoinInjective(p, q);
    }
  }

  /** `isEqual(fixtureId, selectedFixtureId)`: structural equality with the selection. */
  predicate Selected(fixtureId: FixtureId, selection: Option<FixtureId>) {
    selection == Some(fixtureId)
  }
}
