/**
 The rows the navigator draws for a fixture tree, as a pure function of
 the tree, the path to the current node, the expansion map and the
 selection, and what clicking a row asks for.

 A non-root node draws its own directory row; when it is open it then
 draws its sub-directories (recursively, in sorted order) and its fixtures
 (in key order). The lemmas characterise exactly which rows appear: a
 fixture is listed when every directory on the way to it is open, and a
 directory is listed when every directory above it is open.
 */
module TreeRows {
  import opened FixtureTree

  /** The data of one list item; presentation is not modelled. */
  datatype Row =
    | DirRow(name: string, indent: int, expanded: bool, path: string)
    | FixtureRow(name: string, fixtureId: FixtureId, indent: int, selected: bool)

  /** The callback a click triggers. */
  datatype Action =
    | ToggleExpansion(nodePath: string, expanded: bool)
    | Select(fixtureId: FixtureId)
    | OpenInNewTab(fixtureId: FixtureId)

  /** The directory row a non-root node draws for itself. */
  function OwnRow(parents: seq<string>, expansion: TreeExpansion): Row
    requires |parents| > 0
  {
    DirRow(parents[|parents| - 1], |parents| - 1, IsExpanded(parents, expansion), NodePath(parents))
  }

  /** The own row of a non-root node; the root draws none. */
  function OwnRows(parents: seq<string>, expansion: TreeExpansion): (r: seq<Row>)
    ensures |r| == OwnCount(parents)
  {
    if |parents| == 0 then [] else [OwnRow(parents, expansion)]
  }

  /** `FixtureTreeNode` rendered as a list of rows. */
  function Rows(node: FixtureNode, parents: seq<string>, expansion: TreeExpansion,
                selection: Option<FixtureId>): seq<Row>
    decreases node, 1, 0
  {
    var own := OwnRows(parents, expansion);
    if IsExpanded(parents, expansion) then
      own + ChildRows(node, SortedDirNames(node), parents, expansion, selection)
          + ItemRows(node.items, |parents|, selection)
    else own
  }

  /** The rows of the sub-directories `names` of `node`, one after the other. */
  function ChildRows(node: FixtureNode, names: seq<string>, parents: seq<string>,
                     expansion: TreeExpansion, selection: Option<FixtureId>): seq<Row>
    requires forall x :: x in names ==> x in DirNames(node.dirs)
    decreases node, 0, |names|
  {
    if names == [] then []
    else
      Rows(Lookup(node.dirs, names[0]), parents + [names[0]], expansion, selection)
      + ChildRows(node, names[1..], parents, expansion, selection)
  }

  /** One fixture row per item, in key order, all at the same indentation. */
  function ItemRows(items: seq<Item>, indent: int, selection: Option<FixtureId>): seq<Row>
  {
    if items == [] then []
    else
      [FixtureRow(items[0].name, items[0].fixtureId, indent, Selected(items[0].fixtureId, selection))]
      + ItemRows(items[1..], indent, selection)
  }

  /** The item rows are exactly the items' rows. */
  lemma {:induction false} ItemRowsMembers(items: seq<Item>, indent: int, selection: Option<FixtureId>, r: Row)
    ensures r in ItemRows(items, indent, selection)
        <==> r.FixtureRow? && Item(r.name, r.fixtureId) in items && r.indent == indent
             && r.selected == Selected(r.fixtureId, selection)
    decreases |items|
  {
    if items != [] {
      ItemRowsMembers(items[1..], indent, selection, r);
      assert items == [items[0]] + items[1..];
    }
  }

  /** The item rows line up with the items, one row each, in key order. */
  lemma {:induction false} ItemRowsAt(items: seq<Item>, indent: int, selection: Option<FixtureId>)
    ensures |ItemRows(items, indent, selection)| == |items|
    ensures forall i :: 0 <= i < |items| ==>
              ItemRows(items, indent, selection)[i]
              == FixtureRow(items[i].name, items[i].fixtureId, indent, Selected(items[i].fixtureId, selection))
    decreases |items|
  {
    if items != [] {
      ItemRowsAt(items[1..], indent, selection);
      var r := ItemRows(items, indent, selection);
      forall i | 0 < i < |items|
        ensures r[i] == ItemRows(items[1..], indent, selection)[i - 1] && items[i] == items[1..][i - 1]
      {
      }
    }
  }

  /** The sequences of `ss`, one after the other. */
  function Concat<T>(ss: seq<seq<T>>): seq<T>
    decreases |ss|
  {
    if ss == [] then [] else ss[0] + Concat(ss[1..])
  }

  /** Where `ss[k]` starts in `Concat(ss)`: after all of `ss[..k]`. */
  function Offset<T>(ss: seq<seq<T>>, k: nat): nat
    requires k <= |ss|
    decreases k
  {
    if k == 0 then 0 else |ss[0]| + Offset(ss[1..], k - 1)
  }

  /** Offsets never decrease. */
  lemma {:induction false} OffsetMonotone<T>(ss: seq<seq<T>>, i: nat, j: nat)
    requires i <= j <= |ss|
    ensures Offset(ss, i) <= Offset(ss, j)
    decreases i
  {
    if i > 0 {
      OffsetMonotone(ss[1..], i - 1, j - 1);
    }
  }

  /** All of `Concat(ss)` is covered by the blocks. */
  lemma {:induction false} ConcatLength<T>(ss: seq<seq<T>>)
    ensures |Concat(ss)| == Offset(ss, |ss|)
    decreases |ss|
  {
    if ss != [] {
      ConcatLength(ss[1..]);
    }
  }

  /** In `Concat(ss)`, `ss[k]` sits exactly between its offset and the next one. */
  lemma {:induction false} ConcatBlock<T>(ss: seq<seq<T>>, k: nat)
    requires k < |ss|
    ensures Offset(ss, k) <= Offset(ss, k + 1) <= |Concat(ss)|
    ensures Concat(ss)[Offset(ss, k)..Offset(ss, k + 1)] == ss[k]
    decreases k
  {
    var all := Concat(ss);
    var tail := ss[1..];
    assert all == ss[0] + Concat(tail);
    if k == 0 {
      assert all[..|ss[0]|] == ss[0];
      ConcatLength(tail);
    } else {
      ConcatBlock(tail, k - 1);
      var a, b := Offset(tail, k - 1), Offset(tail, k);
      assert tail[k - 1] == ss[k];
      assert all[|ss[0]| + a .. |ss[0]| + b] == Concat(tail)[a..b];
    }
  }

  /** The rows of each of the sub-directories `names`, one block per name. */
  function SubdirBlocks(node: FixtureNode, names: seq<string>, parents: seq<string>,
                        expansion: TreeExpansion, selection: Option<FixtureId>): (r: seq<seq<Row>>)
    requires forall x :: x in names ==> x in DirNames(node.dirs)
    ensures |r| == |names|
  {
    seq(|names|, k requires 0 <= k < |names| =>
      Rows(Lookup(node.dirs, names[k]), parents + [names[k]], expansion, selection))
  }

  /** The sub-directory rows are the blocks of the sub-directories, in the order of `names`. */
  lemma {:induction false} ChildRowsIsConcat(node: FixtureNode, names: seq<string>, parents: seq<string>,
                                             expansion: TreeExpansion, selection: Option<FixtureId>)
    requires forall x :: x in names ==> x in DirNames(node.dirs)
    ensures ChildRows(node, names, parents, expansion, selection)
         == Concat(SubdirBlocks(node, names, parents, expansion, selection))
    decreases |names|
  {
    if names != [] {
      var blocks := SubdirBlocks(node, names, parents, expansion, selection);
      ChildRowsIsConcat(node, names[1..], parents, expansion, selection);
      assert blocks[1..] == SubdirBlocks(node, names[1..], parents, expansion, selection);
    }
  }

  /** The blocks of a node's sub-directories in `getSortedNodeDirNames` order. */
  function SortedBlocks(node: FixtureNode, parents: seq<string>, expansion: TreeExpansion,
                        selection: Option<FixtureId>): seq<seq<Row>>
  {
    SubdirBlocks(node, SortedDirNames(node), parents, expansion, selection)
  }

  /** How many rows precede the sub-directory blocks: the own row, if any. */
  function OwnCount(parents: seq<string>): nat {
    if |parents| == 0 then 0 else 1
  }

  /** An open node draws its own row, then its sub-directory blocks, then its items. */
  lemma RowsSplit(node: FixtureNode, parents: seq<string>, expansion: TreeExpansion,
                  selection: Option<FixtureId>)
    requires IsExpanded(parents, expansion)
    ensures Rows(node, parents, expansion, selection)
         == OwnRows(parents, expansion)
            + Concat(SortedBlocks(node, parents, expansion, selection))
            + ItemRows(node.items, |parents|, selection)
  {
    ChildRowsIsConcat(node, SortedDirNames(node), parents, expansion, selection);
  }

  /** An open node draws its own row, one block per sub-directory and one row per fixture: no more. */
  lemma RowCount(node: FixtureNode, parents: seq<string>, expansion: TreeExpansion,
                 selection: Option<FixtureId>)
    requires IsExpanded(parents, expansion)
    ensures var blocks := SortedBlocks(node, parents, expansion, selection);
            |Rows(node, parents, expansion, selection)|
            == OwnCount(parents) + Offset(blocks, |blocks|) + |node.items|
  {
    RowsSplit(node, parents, expansion, selection);
    ConcatLength(SortedBlocks(node, parents, expansion, selection));
    ItemRowsAt(node.items, |parents|, selection);
  }

  /** A non-root node's own row comes first. */
  lemma OwnRowFirst(node: FixtureNode, parents: seq<string>, expansion: TreeExpansion,
                    selection: Option<FixtureId>)
    requires |parents| > 0
    ensures |Rows(node, parents, expansion, selection)| > 0
    ensures Rows(node, parents, expansion, selection)[0] == OwnRow(parents, expansion)
  {
  }

  /**
   In an open node, the rows of the `k`-th sub-directory in sorted order
   form one contiguous block, right after the own row and the blocks of the
   sub-directories sorted before it.
   */
  lemma SubdirBlockAt(node: FixtureNode, parents: seq<string>, expansion: TreeExpansion,
                      selection: Option<FixtureId>, k: nat)
    requires IsExpanded(parents, expansion)
    requires k < |SortedDirNames(node)|
    ensures var blocks := SortedBlocks(node, parents, expansion, selection);
            var start := OwnCount(parents) + Offset(blocks, k);
            var end := OwnCount(parents) + Offset(blocks, k + 1);
            && start <= end <= |Rows(node, parents, expansion, selection)|
            && Rows(node, parents, expansion, selection)[start..end] == blocks[k]
  {
    RowsSplit(node, parents, expansion, selection);
    BlockOfSplit(Rows(node, parents, expansion, selection), OwnRows(parents, expansion),
                 SortedBlocks(node, parents, expansion, selection),
                 ItemRows(node.items, |parents|, selection), k);
  }

  /** Block `k` of the middle part of `pre + Concat(ss) + post`, shifted by `|pre|`. */
  lemma BlockOfSplit<T>(all: seq<T>, pre: seq<T>, ss: seq<seq<T>>, post: seq<T>, k: nat)
    requires all == pre + Concat(ss) + post
    requires k < |ss|
    ensures |pre| + Offset(ss, k) <= |pre| + Offset(ss, k + 1) <= |all|
    ensures all[|pre| + Offset(ss, k)..|pre| + Offset(ss, k + 1)] == ss[k]
  {
    ConcatBlock(ss, k);
    var mid := Concat(ss);
    var a, b := Offset(ss, k), Offset(ss, k + 1);
    assert all[|pre| + a .. |pre| + b] == mid[a..b];
  }

  /**
   In an open node, the fixture rows come after all sub-directory blocks,
   one per item, in key order.
   */
  lemma ItemRowAt(node: FixtureNode, parents: seq<string>, expansion: TreeExpansion,
                  selection: Option<FixtureId>, i: nat)
    requires IsExpanded(parents, expansion)
    requires i < |node.items|
    ensures var blocks := SortedBlocks(node, parents, expansion, selection);
            var at := OwnCount(parents) + Offset(blocks, |blocks|) + i;
            var item := node.items[i];
            && at < |Rows(node, parents, expansion, selection)|
            && Rows(node, parents, expansion, selection)[at]
               == FixtureRow(item.name, item.fixtureId, |parents|, Selected(item.fixtureId, selection))
  {
    var blocks := SortedBlocks(node, parents, expansion, selection);
    RowsSplit(node, parents, expansion, selection);
    ConcatLength(blocks);
    ItemRowsAt(node.items, |parents|, selection);
  }

  /**
   Sub-directories are drawn in sorted order and before the fixtures: a
   position in the block of sorted sub-directory `i` precedes every position
   in the block of sub-directory `j` when `i < j`, and precedes the first
   fixture row.
   */
  lemma SubdirectoryBlocksInOrder(node: FixtureNode, parents: seq<string>, expansion: TreeExpansion,
                                  selection: Option<FixtureId>, i: nat, j: nat, p: nat, q: nat)
    requires i < j < |SortedDirNames(node)|
    requires var blocks := SortedBlocks(node, parents, expansion, selection);
             Offset(blocks, i) <= p < Offset(blocks, i + 1) && Offset(blocks, j) <= q
    ensures p < q
    ensures var blocks := SortedBlocks(node, parents, expansion, selection);
            p < Offset(blocks, |blocks|)
  {
    var blocks := SortedBlocks(node, parents, expansion, selection);
    OffsetMonotone(blocks, i + 1, j);
    OffsetMonotone(blocks, i + 1, |blocks|);
  }

  /**
   A click on a directory row toggles that directory; a click on a fixture
   row selects the fixture, or with the meta key held opens it in a new tab.
   */
  function Click(row: Row, metaKey: bool): Action {
    match row
    case DirRow(_, _, expanded, path) => ToggleExpansion(path, !expanded)
    case FixtureRow(_, fixtureId, _, _) =>
      if metaKey then OpenInNewTab(fixtureId) else Select(fixtureId)
  }

  /** The node reached from `node` by following the directory names `ps`. */
  function Reach(node: FixtureNode, ps: seq<string>): Option<FixtureNode>
    decreases |ps|
  {
    if ps == [] then Some(node)
    else if ps[0] in DirNames(node.dirs) then Reach(Lookup(node.dirs, ps[0]), ps[1..])
    else None
  }

  /** The node at `parents` and the first `n - 1` nodes below it along `ps` are open. */
  ghost predicate PathOpen(parents: seq<string>, ps: seq<string>, expansion: TreeExpansion, n: nat) {
    forall k :: 0 <= k < n && k <= |ps| ==> IsExpanded(parents + ps[..k], expansion)
  }

  /** `item` sits in the node at `ps`, and that node and all above it are open. */
  ghost predicate ItemShown(node: FixtureNode, parents: seq<string>, expansion: TreeExpansion,
                            ps: seq<string>, item: Item) {
    && Reach(node, ps).Some?
    && item in Reach(node, ps).value.items
    && PathOpen(parents, ps, expansion, |ps| + 1)
  }

  /** The node at `ps` is not the root, and every node above it is open. */
  ghost predicate DirShown(node: FixtureNode, parents: seq<string>, expansion: TreeExpansion,
                           ps: seq<string>) {
    && |parents| + |ps| > 0
    && Reach(node, ps).Some?
    && PathOpen(parents, ps, expansion, |ps|)
  }

  /** Stepping one directory down: a path is open iff its first node and the rest are. */
  lemma PathOpenStep(parents: seq<string>, d: string, ps: seq<string>, expansion: TreeExpansion, n: nat)
    requires n <= |ps| + 1
    ensures PathOpen(parents, [d] + ps, expansion, n + 1)
        <==> IsExpanded(parents, expansion) && PathOpen(parents + [d], ps, expansion, n)
  {
    assert parents + ([d] + ps)[..0] == parents;
    forall k | 0 <= k <= |ps|
      ensures parents + ([d] + ps)[..k + 1] == (parents + [d]) + ps[..k]
    {
      assert ([d] + ps)[..k + 1] == [d] + ps[..k];
    }
    if IsExpanded(parents, expansion) && PathOpen(parents + [d], ps, expansion, n) {
      forall k | 0 <= k < n + 1 && k <= |ps| + 1
        ensures IsExpanded(parents + ([d] + ps)[..k], expansion)
      {
        if k > 0 {
          assert parents + ([d] + ps)[..k] == (parents + [d]) + ps[..k - 1];
        }
      }
    }
    if PathOpen(parents, [d] + ps, expansion, n + 1) {
      forall k | 0 <= k < n && k <= |ps|
        ensures IsExpanded((parents + [d]) + ps[..k], expansion)
      {
        assert parents + ([d] + ps)[..k + 1] == (parents + [d]) + ps[..k];
      }
    }
  }

  lemma StepDown(parents: seq<string>, d: string, ps: seq<string>)
    ensures (parents + [d]) + ps == parents + ([d] + ps)
  {
  }

  /** Following `[d] + ps` is following `d`, then `ps`. */
  lemma ReachStep(node: FixtureNode, d: string, ps: seq<string>)
    ensures Reach(node, [d] + ps)
         == if d in DirNames(node.dirs) then Reach(Lookup(node.dirs, d), ps) else None
  {
    assert ([d] + ps)[0] == d && ([d] + ps)[1..] == ps;
  }

  /** A row of the sub-directory rows belongs to one of the sub-directories. */
  lemma {:induction false} ChildRowsMember(node: FixtureNode, names: seq<string>, parents: seq<string>,
                                           expansion: TreeExpansion, selection: Option<FixtureId>, r: Row)
    returns (i: nat)
    requires forall x :: x in names ==> x in DirNames(node.dirs)
    requires r in ChildRows(node, names, parents, expansion, selection)
    ensures i < |names|
    ensures r in Rows(Lookup(node.dirs, names[i]), parents + [names[i]], expansion, selection)
    decreases |names|
  {
    if r in Rows(Lookup(node.dirs, names[0]), parents + [names[0]], expansion, selection) {
      i := 0;
    } else {
      var j := ChildRowsMember(node, names[1..], parents, expansion, selection, r);
      i := j + 1;
    }
  }

  /** Every row of every listed sub-directory is among the sub-directory rows. */
  lemma {:induction false} ChildRowsInclude(node: FixtureNode, names: seq<string>, parents: seq<string>,
                                            expansion: TreeExpansion, selection: Option<FixtureId>,
                                            i: nat, r: Row)
    requires forall x :: x in names ==> x in DirNames(node.dirs)
    requires i < |names|
    requires r in Rows(Lookup(node.dirs, names[i]), parents + [names[i]], expansion, selection)
    ensures r in ChildRows(node, names, parents, expansion, selection)
    decreases i
  {
    if i > 0 {
      assert names[1..][i - 1] == names[i];
      ChildRowsInclude(node, names[1..], parents, expansion, selection, i - 1, r);
    }
  }

  /** An open node lists every row of each of its sub-directories. */
  lemma SubdirectoryRowsListed(node: FixtureNode, parents: seq<string>, expansion: TreeExpansion,
                               selection: Option<FixtureId>, d: string, r: Row)
    requires IsExpanded(parents, expansion)
    requires d in DirNames(node.dirs)
    requires r in Rows(Lookup(node.dirs, d), parents + [d], expansion, selection)
    ensures r in Rows(node, parents, expansion, selection)
  {
    var names := SortedDirNames(node);
    var i :| 0 <= i < |names| && names[i] == d;
    ChildRowsInclude(node, names, parents, expansion, selection, i, r);
  }

  /** An open node lists each of its own items. */
  lemma ItemRowListed(node: FixtureNode, parents: seq<string>, expansion: TreeExpansion,
                      selection: Option<FixtureId>, r: Row)
    requires IsExpanded(parents, expansion)
    requires r.FixtureRow? && Item(r.name, r.fixtureId) in node.items
    requires r.indent == |parents| && r.selected == Selected(r.fixtureId, selection)
    ensures r in Rows(node, parents, expansion, selection)
  {
    ItemRowsMembers(node.items, |parents|, selection, r);
  }

  /** Every fixture row comes from a shown item, at its depth, with its selection state. */
  lemma {:induction false} FixtureRowOrigin(node: FixtureNode, parents: seq<string>, expansion: TreeExpansion,
                                            selection: Option<FixtureId>, r: Row)
    returns (ps: seq<string>)
    requires r in Rows(node, parents, expansion, selection) && r.FixtureRow?
    ensures ItemShown(node, parents, expansion, ps, Item(r.name, r.fixtureId))
    ensures r.indent == |parents| + |ps|
    ensures r.selected == Selected(r.fixtureId, selection)
    decreases node
  {
    var names := SortedDirNames(node);
    var items := ItemRows(node.items, |parents|, selection);
    assert IsExpanded(parents, expansion);
    assert parents + [] == parents;
    if r in ChildRows(node, names, parents, expansion, selection) {
      var i := ChildRowsMember(node, names, parents, expansion, selection, r);
      var d := names[i];
      var child := Lookup(node.dirs, d);
      var rest := FixtureRowOrigin(child, parents + [d], expansion, selection, r);
      ps := [d] + rest;
      ReachStep(node, d, rest);
      PathOpenStep(parents, d, rest, expansion, |rest| + 1);
    } else {
      ItemRowsMembers(node.items, |parents|, selection, r);
      ps := [];
    }
  }

  /** Every shown item is listed, at its depth, with its selection state. */
  lemma {:induction false} FixtureRowShown(node: FixtureNode, parents: seq<string>, expansion: TreeExpansion,
                                           selection: Option<FixtureId>, ps: seq<string>, r: Row)
    requires r.FixtureRow? && ItemShown(node, parents, expansion, ps, Item(r.name, r.fixtureId))
    requires r.indent == |parents| + |ps| && r.selected == Selected(r.fixtureId, selection)
    ensures r in Rows(node, parents, expansion, selection)
    decreases |ps|
  {
    if ps == [] {
      assert parents + ps[..0] == parents;
      ItemRowListed(node, parents, expansion, selection, r);
    } else {
      var d, rest := ps[0], ps[1..];
      assert ps == [d] + rest;
      ItemShownStep(node, parents, expansion, d, rest, Item(r.name, r.fixtureId));
      FixtureRowShown(Lookup(node.dirs, d), parents + [d], expansion, selection, rest, r);
      SubdirectoryRowsListed(node, parents, expansion, selection, d, r);
    }
  }

  /** An item shown below sub-directory `d` is shown from `d` on. */
  lemma ItemShownStep(node: FixtureNode, parents: seq<string>, expansion: TreeExpansion,
                      d: string, rest: seq<string>, item: Item)
    requires ItemShown(node, parents, expansion, [d] + rest, item)
    ensures IsExpanded(parents, expansion) && d in DirNames(node.dirs)
    ensures ItemShown(Lookup(node.dirs, d), parents + [d], expansion, rest, item)
  {
    ReachStep(node, d, rest);
    PathOpenStep(parents, d, rest, expansion, |rest| + 1);
  }

  /**
   A fixture row appears exactly when its item is in a node whose every
   ancestor, and the node itself, is open; it is indented one level per
   directory on the way, and highlighted iff it is the selected fixture.
   */
  lemma FixtureRowListedIff(node: FixtureNode, parents: seq<string>, expansion: TreeExpansion,
                            selection: Option<FixtureId>, name: string, fixtureId: FixtureId,
                            indent: int, selected: bool)
    ensures FixtureRow(name, fixtureId, indent, selected) in Rows(node, parents, expansion, selection)
        <==> selected == Selected(fixtureId, selection)
             && exists ps :: ItemShown(node, parents, expansion, ps, Item(name, fixtureId))
                             && indent == |parents| + |ps|
  {
    var r := FixtureRow(name, fixtureId, indent, selected);
    var item := Item(name, fixtureId);
    if r in Rows(node, parents, expansion, selection) {
      var ps := FixtureRowOrigin(node, parents, expansion, selection, r);
      assert ItemShown(node, parents, expansion, ps, item) && indent == |parents| + |ps|;
    } else if selected == Selected(fixtureId, selection) {
      forall ps | ItemShown(node, parents, expansion, ps, item)
        ensures indent != |parents| + |ps|
      {
        if indent == |parents| + |ps| {
          FixtureRowShown(node, parents, expansion, selection, ps, r);
        }
      }
    }
  }

  /** Every directory row is the own row of a shown node. */
  lemma {:induction false} DirRowOrigin(node: FixtureNode, parents: seq<string>, expansion: TreeExpansion,
                                        selection: Option<FixtureId>, r: Row)
    returns (ps: seq<string>)
    requires r in Rows(node, parents, expansion, selection) && r.DirRow?
    ensures DirShown(node, parents, expansion, ps)
    ensures r == OwnRow(parents + ps, expansion)
    decreases node
  {
    var names := SortedDirNames(node);
    var items := ItemRows(node.items, |parents|, selection);
    assert parents + [] == parents;
    if |parents| > 0 && r == OwnRow(parents, expansion) {
      ps := [];
    } else {
      assert IsExpanded(parents, expansion);
      ItemRowsMembers(node.items, |parents|, selection, r);
      var i := ChildRowsMember(node, names, parents, expansion, selection, r);
      var d := names[i];
      var child := Lookup(node.dirs, d);
      var rest := DirRowOrigin(child, parents + [d], expansion, selection, r);
      ps := [d] + rest;
      StepDown(parents, d, rest);
      ReachStep(node, d, rest);
      PathOpenStep(parents, d, rest, expansion, |rest|);
    }
  }

  /** Every shown non-root node draws its own row. */
  lemma {:induction false} DirRowShown(node: FixtureNode, parents: seq<string>, expansion: TreeExpansion,
                                       selection: Option<FixtureId>, ps: seq<string>)
    requires DirShown(node, parents, expansion, ps)
    ensures OwnRow(parents + ps, expansion) in Rows(node, parents, expansion, selection)
    decreases |ps|
  {
    assert parents + ps[..0] == parents;
    if ps == [] {
      assert parents + ps == parents;
    } else {
      var d, rest := ps[0], ps[1..];
      assert ps == [d] + rest;
      StepDown(parents, d, rest);
      ReachStep(node, d, rest);
      var child := Lookup(node.dirs, d);
      PathOpenStep(parents, d, rest, expansion, |rest|);
      DirRowShown(child, parents + [d], expansion, selection, rest);
      SubdirectoryRowsListed(node, parents, expansion, selection, d, OwnRow(parents + ps, expansion));
    }
  }

  /**
   A directory row appears exactly when it is the row of a non-root node
   all of whose ancestors are open; it carries that node's name, depth,
   path and current expansion state.
   */
  lemma DirRowListedIff(node: FixtureNode, parents: seq<string>, expansion: TreeExpansion,
                        selection: Option<FixtureId>, r: Row)
    requires r.DirRow?
    ensures r in Rows(node, parents, expansion, selection)
        <==> exists ps :: DirShown(node, parents, expansion, ps) && r == OwnRow(parents + ps, expansion)
  {
    if r in Rows(node, parents, expansion, selection) {
      var ps := DirRowOrigin(node, parents, expansion, selection, r);
    }
    if exists ps :: DirShown(node, parents, expansion, ps) && r == OwnRow(parents + ps, expansion) {
      var ps :| DirShown(node, parents, expansion, ps) && r == OwnRow(parents + ps, expansion);
      DirRowShown(node, parents, expansion, selection, ps);
    }
  }

  /** A closed non-root node draws its own row and nothing else. */
  lemma CollapsedShowsOnlyOwnRow(node: FixtureNode, parents: seq<string>, expansion: TreeExpansion,
                                 selection: Option<FixtureId>)
    requires |parents| > 0
    requires NodePath(parents) !in expansion || !expansion[NodePath(parents)]
    ensures Rows(node, parents, expansion, selection)
         == [DirRow(parents[|parents| - 1], |parents| - 1, false, NodePath(parents))]
  {
  }

  /**
   No row is indented less than the node's own row, the own row is the only
   one at that level, and every other row gets strictly more left padding.
   */
  lemma RowIndentation(node: FixtureNode, parents: seq<string>, expansion: TreeExpansion,
                       selection: Option<FixtureId>, r: Row)
    requires r in Rows(node, parents, expansion, selection)
    ensures 0 <= r.indent && |parents| - 1 <= r.indent
    ensures r.FixtureRow? ==> |parents| <= r.indent
    ensures r.indent < |parents| ==> r == OwnRow(parents, expansion)
    ensures r.indent < |parents| || LeftPadding(|parents| - 1) < LeftPadding(r.indent)
  {
    if r.FixtureRow? {
      var ps := FixtureRowOrigin(node, parents, expansion, selection, r);
    } else {
      var ps := DirRowOrigin(node, parents, expansion, selection, r);
      if ps == [] {
        assert parents + ps == parents;
      }
    }
  }

  /** A fixture row is highlighted iff its fixture is the selected one; none is without a selection. */
  lemma SelectionHighlight(node: FixtureNode, parents: seq<string>, expansion: TreeExpansion,
                           selection: Option<FixtureId>, r: Row)
    requires r in Rows(node, parents, expansion, selection) && r.FixtureRow?
    ensures r.selected <==> selection == Some(r.fixtureId)
    ensures selection == None ==> !r.selected
  {
    var ps := FixtureRowOrigin(node, parents, expansion, selection, r);
  }

  /**
   Clicking a directory row asks to flip the expansion of the very node the
   row was drawn for; a plain click on a fixture row selects that row's
   fixture, which is an item of a shown node.
   */
  lemma ClickActions(node: FixtureNode, parents: seq<string>, expansion: TreeExpansion,
                     selection: Option<FixtureId>, r: Row)
    returns (ps: seq<string>)
    requires r in Rows(node, parents, expansion, selection)
    ensures r.DirRow? ==>
              && DirShown(node, parents, expansion, ps)
              && Click(r, false) == Click(r, true)
                 == ToggleExpansion(NodePath(parents + ps), !IsExpanded(parents + ps, expansion))
    ensures r.FixtureRow? ==>
              && ItemShown(node, parents, expansion, ps, Item(r.name, r.fixtureId))
              && Click(r, false) == Select(r.fixtureId)
              && Click(r, true) == OpenInNewTab(r.fixtureId)
  {
    if r.DirRow? {
      ps := DirRowOrigin(node, parents, expansion, selection, r);
    } else {
      ps := FixtureRowOrigin(node, parents, expansion, selection, r);
    }
  }
}
