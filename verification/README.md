# Fixture tree navigator: a Dafny model

The React Cosmos playground shows the fixtures of a project as a tree of directories in its
navigation panel. `FixtureTreeNode` draws one node of that tree and, recursively, everything
below it:

- the node's own directory row, unless it is the root;
- if the node is open, the rows of its sub-directories, then one row per fixture in it.

This project models that component as pure functions and proves what the drawn list contains.

- `lex.dfy` (`Lex`): the string order of JavaScript's default `sort()`. It is proved to be a
  strict total order. It is also proved to agree with the string comparison of ECMAScript's
  IsLessThan abstract operation: a prefix comes first, otherwise the first difference decides.
- `sorting.dfy` (`Sorting`): the two stable sorts of `getSortedNodeDirNames`, modelled by one
  stable insertion sort. Proved facts:
  - the alphabetical pass yields lexicographic order;
  - the depth pass splits the names into the two depth classes, keeping their order;
  - the combined result is in "key descending, then lexicographic" order;
  - that order has exactly one arrangement of a given multiset of names.
- `paths.dfy` (`Paths`): `getNodePath`, i.e. `join('/')`. `Split` inverts it, so nodes whose
  names contain no '/' get distinct keys in the expansion map.
- `fixture_tree.dfy` (`FixtureTree`): the tree data and the per-node rules:
  - `calcNodeDepth`, the sorted sub-directory names, `getLeftPadding`, the node path;
  - the expansion rule (`isRootNode || treeExpansion[nodePath]`);
  - the selection test (`isEqual`).
- `tree_rows.dfy` (`TreeRows`): the rendered output as a list of rows (`Rows`), and what a click
  on a row asks for (`Click`). The lemmas state which rows appear and in what order:
  - a fixture row appears iff every directory down to its item's node, and that node itself,
    is open;
  - a directory row appears iff every directory above it is open;
  - an open node's list is its own row first, then one contiguous block per sub-directory in
    `getSortedNodeDirNames` order, then its fixtures in key order, and nothing more;
  - indentation, selection highlight and click actions follow from where a row comes from.

A JavaScript object (`node.dirs`, `node.items`) is modelled as a sequence of entries in key
order. The following are plain definitions with no contract of their own; the lemmas in the
table below state what they mean. Lines are those of `FixtureTreeNode.tsx`.

- `TreeRows.Rows`, `ChildRows`, `ItemRows`, `OwnRows`, `OwnRow`: the JSX returned at lines 48-96.
- `TreeRows.Click`: the click handlers at lines 36-46 and 51.
- `TreeRows.Reach`: following `dirs[dirName]` down the tree, line 70.
- `FixtureTree.DirNames`: `Object.keys(node.dirs)`, line 101.
- `FixtureTree.LeftPadding`: `getLeftPadding`, lines 211-213.
- `FixtureTree.NodePath` and `Paths.Join`: `getNodePath`, lines 215-217.
- `FixtureTree.IsExpanded`: `isRootNode || treeExpansion[nodePath]`, lines 33-34.
- `FixtureTree.Selected`: `isEqual(fixtureId, selectedFixtureId)`, line 87.
- `Lex.LexLess` and `Sorting.CompareStrings`: the comparison of `sort()` with no comparator, line 104.
- `Sorting.ByKeyDescending`, `FixtureTree.DirDepth` and `FixtureTree.DepthKey`: the comparator
  at lines 105-109.

## Model

Every row cites `FixtureTreeNode.tsx`, the component's only source file.

| member | source | states |
|---|---|---|
| Lex.LexLessIrreflexive | packages/react-cosmos-playground2/src/plugins/Nav/FixtureTree/FixtureTreeNode.tsx:104 | No name sorts strictly before itself. |
| Lex.LexLessAsymmetric | packages/react-cosmos-playground2/src/plugins/Nav/FixtureTree/FixtureTreeNode.tsx:104 | Two names are never each strictly before the other. |
| Lex.LexLessTransitive | packages/react-cosmos-playground2/src/plugins/Nav/FixtureTree/FixtureTreeNode.tsx:104 | The alphabetical order is transitive. |
| Lex.LexLessTotal | packages/react-cosmos-playground2/src/plugins/Nav/FixtureTree/FixtureTreeNode.tsx:104 | Any two different names are ordered one way or the other. |
| Lex.LexLessIsStringLessThan | packages/react-cosmos-playground2/src/plugins/Nav/FixtureTree/FixtureTreeNode.tsx:104 | The order used equals ECMAScript's rule: a proper prefix is smaller, else the first differing character decides. |
| Sorting.Insert | packages/react-cosmos-playground2/src/plugins/Nav/FixtureTree/FixtureTreeNode.tsx:104-110 | One insertion step of the stable sort adds exactly one element. |
| Sorting.InsertPermutes | packages/react-cosmos-playground2/src/plugins/Nav/FixtureTree/FixtureTreeNode.tsx:104-110 | An insertion step adds exactly the inserted element and loses nothing. |
| Sorting.SortBy | packages/react-cosmos-playground2/src/plugins/Nav/FixtureTree/FixtureTreeNode.tsx:104-110 | Sorting is a permutation of its input. |
| Sorting.KeyClass | packages/react-cosmos-playground2/src/plugins/Nav/FixtureTree/FixtureTreeNode.tsx:105-110 | The names of one depth class all have that depth and come from the input. |
| Sorting.InsertKeepsLexSorted | packages/react-cosmos-playground2/src/plugins/Nav/FixtureTree/FixtureTreeNode.tsx:104 | Inserting a name into an alphabetically ordered list keeps it ordered. |
| Sorting.SortByStringsIsLexSorted | packages/react-cosmos-playground2/src/plugins/Nav/FixtureTree/FixtureTreeNode.tsx:103-104 | `sort()` with no comparator leaves the names in alphabetical order. |
| Sorting.InsertLowKey | packages/react-cosmos-playground2/src/plugins/Nav/FixtureTree/FixtureTreeNode.tsx:105-110 | A depth-0 name goes after every name already placed. |
| Sorting.InsertBeforeLowKey | packages/react-cosmos-playground2/src/plugins/Nav/FixtureTree/FixtureTreeNode.tsx:105-110 | A depth-1 name goes before a list that starts with a depth-0 name. |
| Sorting.InsertAfterHighKey | packages/react-cosmos-playground2/src/plugins/Nav/FixtureTree/FixtureTreeNode.tsx:105-110 | A depth-1 name passes over a depth-1 name, so equal keys keep their order. |
| Sorting.InsertHighKey | packages/react-cosmos-playground2/src/plugins/Nav/FixtureTree/FixtureTreeNode.tsx:105-110 | A depth-1 name goes after the depth-1 names and before the depth-0 names. |
| Sorting.InsertIntoTwoClasses | packages/react-cosmos-playground2/src/plugins/Nav/FixtureTree/FixtureTreeNode.tsx:105-110 | Each insertion keeps "depth-1 names, then depth-0 names", each class in arrival order. |
| Sorting.SortByKeyDescendingPartitions | packages/react-cosmos-playground2/src/plugins/Nav/FixtureTree/FixtureTreeNode.tsx:105-110 | The stable depth sort yields the depth-1 names in input order, then the depth-0 names in input order. |
| Sorting.KeyClassKeepsLexSorted | packages/react-cosmos-playground2/src/plugins/Nav/FixtureTree/FixtureTreeNode.tsx:103-110 | Keeping one depth class of an alphabetical list keeps it alphabetical. |
| Sorting.TwoSortedClassesAreKeyThenLexSorted | packages/react-cosmos-playground2/src/plugins/Nav/FixtureTree/FixtureTreeNode.tsx:103-110 | Alphabetical depth-1 names followed by alphabetical depth-0 names are in depth-then-name order. |
| Sorting.AlphabeticalThenByKeyIsKeyThenLexSorted | packages/react-cosmos-playground2/src/plugins/Nav/FixtureTree/FixtureTreeNode.tsx:101-111 | Sorting alphabetically and then stably by a 0/1 depth, larger first, gives depth-then-name order. |
| Sorting.KeyThenLexSortedSameKeys | packages/react-cosmos-playground2/src/plugins/Nav/FixtureTree/FixtureTreeNode.tsx:105-110 | The depth-then-name order depends only on the depth values. |
| Sorting.SortedHeadsAgree | packages/react-cosmos-playground2/src/plugins/Nav/FixtureTree/FixtureTreeNode.tsx:99-112 | Two depth-then-name ordered arrangements of the same names start with the same name. |
| Sorting.TailsAgreeAsMultisets | packages/react-cosmos-playground2/src/plugins/Nav/FixtureTree/FixtureTreeNode.tsx:99-112 | After removing equal first names, the rests hold the same names. |
| Sorting.KeyThenLexSortedUnique | packages/react-cosmos-playground2/src/plugins/Nav/FixtureTree/FixtureTreeNode.tsx:99-112 | There is only one depth-then-name ordered arrangement of a multiset of names. |
| Paths.Split | packages/react-cosmos-playground2/src/plugins/Nav/FixtureTree/FixtureTreeNode.tsx:215-217 | Splitting a path always gives at least one part (the inverse of `join`). |
| Paths.SplitPrefix | packages/react-cosmos-playground2/src/plugins/Nav/FixtureTree/FixtureTreeNode.tsx:215-217 | Separator-free text glues onto the first part of what follows it. |
| Paths.SplitJoin | packages/react-cosmos-playground2/src/plugins/Nav/FixtureTree/FixtureTreeNode.tsx:215-217 | Splitting the path of a node gives back its directory names, if none contains '/'. |
| Paths.JoinInjective | packages/react-cosmos-playground2/src/plugins/Nav/FixtureTree/FixtureTreeNode.tsx:215-217 | Different non-root nodes with '/'-free names have different paths. |
| Paths.JoinAppend | packages/react-cosmos-playground2/src/plugins/Nav/FixtureTree/FixtureTreeNode.tsx:66-69 | A child's path is its parent's path, '/', and its own name. |
| Paths.SeparatorInNameCollides | packages/react-cosmos-playground2/src/plugins/Nav/FixtureTree/FixtureTreeNode.tsx:215-217 | A top-level directory "a/b" and a directory "b" inside "a" share a path. |
| FixtureTree.Lookup | packages/react-cosmos-playground2/src/plugins/Nav/FixtureTree/FixtureTreeNode.tsx:70 | `dirs[dirName]` for a listed name is the value of an entry with that name. |
| FixtureTree.LookupFindsEntry | packages/react-cosmos-playground2/src/plugins/Nav/FixtureTree/FixtureTreeNode.tsx:70 | With distinct keys, `dirs[name]` is exactly the node stored under `name`. |
| FixtureTree.NodeDepth | packages/react-cosmos-playground2/src/plugins/Nav/FixtureTree/FixtureTreeNode.tsx:114-119 | `calcNodeDepth` is 0 or 1. |
| FixtureTree.NodeDepthIsClippedHeight | packages/react-cosmos-playground2/src/plugins/Nav/FixtureTree/FixtureTreeNode.tsx:114-119 | `calcNodeDepth` is the node's real height clipped to 1: 1 iff it has sub-directories. |
| FixtureTree.NodeDepthIgnoresDeeperNesting | packages/react-cosmos-playground2/src/plugins/Nav/FixtureTree/FixtureTreeNode.tsx:114-115 | A node two levels deep and one a single level deep get the same sort depth. |
| FixtureTree.SortedDirNames | packages/react-cosmos-playground2/src/plugins/Nav/FixtureTree/FixtureTreeNode.tsx:99-112 | `getSortedNodeDirNames` returns a permutation of the node's directory names. |
| FixtureTree.SortedDirNamesOrder | packages/react-cosmos-playground2/src/plugins/Nav/FixtureTree/FixtureTreeNode.tsx:99-112 | The sorted names are ordered by depth descending, then alphabetically. |
| FixtureTree.DirsWithSubdirsFirst | packages/react-cosmos-playground2/src/plugins/Nav/FixtureTree/FixtureTreeNode.tsx:105-110 | Every directory with sub-directories is listed before every directory without. |
| FixtureTree.SameKindAlphabetical | packages/react-cosmos-playground2/src/plugins/Nav/FixtureTree/FixtureTreeNode.tsx:103-110 | Directories of the same kind are listed alphabetically. |
| FixtureTree.SameEntriesSameNames | packages/react-cosmos-playground2/src/plugins/Nav/FixtureTree/FixtureTreeNode.tsx:101 | Two `dirs` objects with the same entries have the same keys. |
| FixtureTree.SameEntriesSameDepths | packages/react-cosmos-playground2/src/plugins/Nav/FixtureTree/FixtureTreeNode.tsx:105-109 | Two `dirs` objects with the same entries give every name the same sort depth. |
| FixtureTree.SortedDirNamesIgnoresKeyOrder | packages/react-cosmos-playground2/src/plugins/Nav/FixtureTree/FixtureTreeNode.tsx:99-112 | The displayed sub-directory order does not depend on the key order of `dirs`. |
| FixtureTree.LeftPaddingIncreasing | packages/react-cosmos-playground2/src/plugins/Nav/FixtureTree/FixtureTreeNode.tsx:211-213 | Each deeper indentation level gets at least 16 more pixels of left padding. |
| FixtureTree.ExpansionIsPerNode | packages/react-cosmos-playground2/src/plugins/Nav/FixtureTree/FixtureTreeNode.tsx:32-34 | Writing a node's path in the expansion map opens or closes that node and no other, for '/'-free names. |
| TreeRows.ItemRowsMembers | packages/react-cosmos-playground2/src/plugins/Nav/FixtureTree/FixtureTreeNode.tsx:79-92 | The fixture rows of a node are exactly its items, at its indentation, with their selection state. |
| TreeRows.PathOpenStep | packages/react-cosmos-playground2/src/plugins/Nav/FixtureTree/FixtureTreeNode.tsx:63-66 | A path below a node is open iff the node is open and the path below its first child is open. |
| TreeRows.ReachStep | packages/react-cosmos-playground2/src/plugins/Nav/FixtureTree/FixtureTreeNode.tsx:65-70 | Following `[d] + ps` means entering sub-directory `d`, then following `ps`. |
| TreeRows.ChildRowsMember | packages/react-cosmos-playground2/src/plugins/Nav/FixtureTree/FixtureTreeNode.tsx:65-78 | Each row among the sub-directory rows comes from one of the listed sub-directories. |
| TreeRows.ChildRowsInclude | packages/react-cosmos-playground2/src/plugins/Nav/FixtureTree/FixtureTreeNode.tsx:65-78 | Each row of each listed sub-directory is among the sub-directory rows. |
| TreeRows.ItemRowsAt | packages/react-cosmos-playground2/src/plugins/Nav/FixtureTree/FixtureTreeNode.tsx:79-92 | The fixture rows line up with the items: one row per item, in key order, at the node's indentation. |
| TreeRows.ChildRowsIsConcat | packages/react-cosmos-playground2/src/plugins/Nav/FixtureTree/FixtureTreeNode.tsx:65-78 | The sub-directory rows are the rows of each listed sub-directory, one after the other, in list order. |
| TreeRows.RowsSplit | packages/react-cosmos-playground2/src/plugins/Nav/FixtureTree/FixtureTreeNode.tsx:48-96 | An open node draws its own row (unless root), then the sub-directory blocks in sorted order, then its fixture rows. |
| TreeRows.RowCount | packages/react-cosmos-playground2/src/plugins/Nav/FixtureTree/FixtureTreeNode.tsx:48-96 | An open node draws exactly its own row, the rows of its sorted sub-directories and one row per fixture, nothing twice. |
| TreeRows.OwnRowFirst | packages/react-cosmos-playground2/src/plugins/Nav/FixtureTree/FixtureTreeNode.tsx:50-62 | A non-root node's own directory row is the first row it draws. |
| TreeRows.SubdirBlockAt | packages/react-cosmos-playground2/src/plugins/Nav/FixtureTree/FixtureTreeNode.tsx:63-78 | The rows of the k-th sorted sub-directory form one contiguous block right after the blocks of the sub-directories sorted before it. |
| TreeRows.ItemRowAt | packages/react-cosmos-playground2/src/plugins/Nav/FixtureTree/FixtureTreeNode.tsx:79-92 | The i-th fixture row comes after all sub-directory blocks and shows the i-th item, with its selection state. |
| TreeRows.SubdirectoryBlocksInOrder | packages/react-cosmos-playground2/src/plugins/Nav/FixtureTree/FixtureTreeNode.tsx:63-92 | Rows of an earlier sorted sub-directory precede rows of a later one, and all sub-directory rows precede the fixture rows. |
| TreeRows.SubdirectoryRowsListed | packages/react-cosmos-playground2/src/plugins/Nav/FixtureTree/FixtureTreeNode.tsx:63-78 | An open node lists every row of each of its sub-directories. |
| TreeRows.ItemRowListed | packages/react-cosmos-playground2/src/plugins/Nav/FixtureTree/FixtureTreeNode.tsx:79-92 | An open node lists a row for each of its own items. |
| TreeRows.ItemShownStep | packages/react-cosmos-playground2/src/plugins/Nav/FixtureTree/FixtureTreeNode.tsx:63-70 | An item shown below sub-directory `d` is shown from `d` down. |
| TreeRows.FixtureRowOrigin | packages/react-cosmos-playground2/src/plugins/Nav/FixtureTree/FixtureTreeNode.tsx:63-92 | Every fixture row belongs to an item of an open node whose ancestors are all open, at one indent per level. |
| TreeRows.FixtureRowShown | packages/react-cosmos-playground2/src/plugins/Nav/FixtureTree/FixtureTreeNode.tsx:63-92 | Every item of an open node whose ancestors are all open gets a row at its depth. |
| TreeRows.FixtureRowListedIff | packages/react-cosmos-playground2/src/plugins/Nav/FixtureTree/FixtureTreeNode.tsx:63-92 | A fixture row is drawn iff its item is shown, with indent equal to its depth and highlight iff selected. |
| TreeRows.DirRowOrigin | packages/react-cosmos-playground2/src/plugins/Nav/FixtureTree/FixtureTreeNode.tsx:50-78 | Every directory row is the own row of a non-root node whose ancestors are all open. |
| TreeRows.DirRowShown | packages/react-cosmos-playground2/src/plugins/Nav/FixtureTree/FixtureTreeNode.tsx:50-78 | Every non-root node whose ancestors are all open draws its own row. |
| TreeRows.DirRowListedIff | packages/react-cosmos-playground2/src/plugins/Nav/FixtureTree/FixtureTreeNode.tsx:50-78 | A directory row is drawn iff it is the own row of a node whose ancestors are all open. |
| TreeRows.CollapsedShowsOnlyOwnRow | packages/react-cosmos-playground2/src/plugins/Nav/FixtureTree/FixtureTreeNode.tsx:33-63 | A closed non-root node draws only its own row, with a closed chevron. |
| TreeRows.RowIndentation | packages/react-cosmos-playground2/src/plugins/Nav/FixtureTree/FixtureTreeNode.tsx:52-86 | No row is less indented than the node's own row, and every other row gets more left padding. |
| TreeRows.SelectionHighlight | packages/react-cosmos-playground2/src/plugins/Nav/FixtureTree/FixtureTreeNode.tsx:87 | A fixture row is highlighted iff its fixture is the selected one. |
| TreeRows.ClickActions | packages/react-cosmos-playground2/src/plugins/Nav/FixtureTree/FixtureTreeNode.tsx:36-51 | A directory row's click flips its own node's expansion; a fixture row's click selects it, or opens it in a new tab with the meta key held. |

## Left out

- Styling: the styled-components definitions and the CSS they produce are not modelled. The
  padding formula of `getLeftPadding` and the `selected` flag are kept.
- React itself: element construction, the `key` props and re-rendering are not modelled. The
  rendered output is the list of row data that `Rows` returns.
- Browser effects: `e.preventDefault()` and `window.open(href, '_blank')` are not modelled. A
  click yields an action value (`ToggleExpansion`, `Select` or `OpenInNewTab`) that names what
  the handler asks for.
- `createUrl`, the link's `href`: the URL format lives in another module and is not part of
  this model.
- The `FixtureTree` parent, `Nav.tsx` and the code that updates `treeExpansion`: they are
  callers, not part of this component. `ExpansionIsPerNode` states the effect of writing one
  path into the map.
- `lodash.isEqual` is modelled as structural equality on `FixtureId`, which is what it computes
  for these plain objects. `lodash.map` over `items` is modelled as iteration in key order.
- String order: JavaScript compares strings by UTF-16 code units. The model compares Dafny
  characters, which gives the same order for characters of the Basic Multilingual Plane only.
- `Array.prototype.sort`'s algorithm is not modelled. One stable insertion sort stands for it.
  The uniqueness lemma shows that any sort producing the same depth-then-name order gives the
  same output.
- JavaScript's ordering of integer-like object keys is not modelled. The entries are taken in
  whatever order the object yields them, and `SortedDirNamesIgnoresKeyOrder` shows the
  displayed order of directories does not depend on it. Fixture rows keep the key order.
- FixtureTree.IsExpanded: a missing key counts as closed. In JavaScript, `treeExpansion[nodePath]`
  also finds properties inherited from `Object.prototype`. So a top-level directory named
  `constructor`, `toString`, `valueOf`, `hasOwnProperty` or the like is drawn open while the
  map has no entry for it, and clicking it asks to close it. The model treats such a node
  like any other directory. Nested paths contain '/', so only top-level names are affected.
- `FixtureTree.DirDepth`: for a name that is not a key of `dirs` it returns 0. JavaScript would
  throw here, but the sort only ever passes names taken from `dirs`.
