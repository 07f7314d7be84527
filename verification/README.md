# Report model and dependency-tree search of the ORT web reporter

This project models, in Dafny, the data core of the ORT web reporter
(`reporter-web-app`): the single pass that turns the report document into
the in-memory result model, the recursive construction of the dependency
forest with its reverse tree index, and the package search of the tree view.

- `WebAppTreeNode` (web_app_tree_node.dfy): the tree-node constructor.
  It copies the integer `key` and `pkg` of a raw record, the non-empty
  title, and the exclusion lists as `Set`s, with snake_case taking priority
  over camelCase. It builds the children left to right. Each child gets
  its own copy of the parent's ancestor chain. A non-root node then appends
  its own package index to that chain, when it has one. After all of its
  children, a node that has a package index reports
  `(packageIndex, key, parentKey)` to the callback.
  A root reports its own package index as the parent key. The callback
  invocations are returned as a post-order trace.
- `ReverseIndex` (reverse_index.dfy): the callback of the result
  constructor. It folds the trace into a map from package index to the
  `Set`s of node keys and parent keys.
- `WebAppOrtResult` (web_app_ort_result.dfy): the result constructor and
  every getter and `has…` predicate. Sections are read under either
  spelling. Issues and rule violations are grouped by package index.
  Licenses are indexed by name, the last occurrence winning. The constructor
  also derives the projects, the tree levels and the license name lists.
- `TreeView` (tree_view.dfy) covers three parts of the tree view:
  - `onChangeSearch` (trim, substring match on package ids, projection
    through the reverse index, union of key sets);
  - the title split of `renderTreeNode`, as written (the component's
    `render()` passes the forest to the tree as `treeData` and does not
    call `renderTreeNode`);
  - the tree's `filterTreeNode`.
- `ChainExample` (chain_example.dfy): the construction of a three-level
  chain, its callback trace, its reverse index and the grandchild's
  ancestor chain, worked out in full.
- Support modules:
  - `Wrappers`: `Option`.
  - `Fields`: dual-spelling sections.
  - `JsSet`: a JavaScript `Set` as a duplicate-free sequence in insertion
    order.
  - `Text`: `String.prototype.trim` and `indexOf`.

The main result is `TreeView.SearchFindsForestNodes`. On a report built
from any document with dependency trees, every tree node whose package id
contains the non-empty trimmed query passes the tree filter and has its
callback parent key expanded. A query that trims to the empty string
matches nothing, although every id contains it
(`TreeView.BlankQueryClearsSearch`). Conversely, every matched key is the key of such a
node, and every expanded key is the callback parent key of such a node.
For a matching root that parent key is the root's own package index, not
a node key. The filter compares keys, not nodes, so a node that shares
its key with a matching node passes too.

Two facts about the code are worth stating plainly:

- Ancestor chain. A node's chain is its parent's chain followed by the
  node's own package index (`WebAppTreeNode.js` lines 51-56 and 75). A
  root's chain is empty, so a root's own package index is never recorded.
  For the forest root(key 0) → (key 1, pkg 1) → (key 2, pkg 0), node 2's
  chain is `[1, 0]` (`ChainExample.ThreeLevelChain`).
- Open findings. `hasIssues` and `hasRuleViolations` test each severity
  bucket separately: one positive bucket is enough, whatever the others
  hold. This is not the same as testing their sum, which differs only for
  negative counters.

## Model

| member | source | states |
|---|---|---|
| WebAppTreeNode.Build | reporter-web-app/src/models/WebAppTreeNode.js:37-89 | a falsy raw record yields an empty node and no callback; otherwise the node has one child per raw child |
| WebAppTreeNode.BuildChildren | reporter-web-app/src/models/WebAppTreeNode.js:72-77 | the children loop keeps input order: child i is the node built from raw child i |
| WebAppTreeNode.NodeFields | reporter-web-app/src/models/WebAppTreeNode.js:47-70 | key and package index are copied from the raw record; the title is the raw title when non-empty and absent otherwise; each exclusion set holds the distinct elements of the snake_case list when that is present, otherwise of the camelCase list, in order of first occurrence (what `new Set` holds, see `JsSet.SetOfIsFromSeq`), otherwise nothing |
| WebAppTreeNode.BuildLinked | reporter-web-app/src/models/WebAppTreeNode.js:41-56 | a root has an empty chain and no parent; every child links to its builder's key and has its parent's chain followed by its own package index, if any, at every depth |
| WebAppTreeNode.ForestWellFormed | reporter-web-app/src/models/WebAppOrtResult.js:120-127 | every root built by the forest loop is well formed: no parent, empty chain, linked invariant below |
| WebAppTreeNode.BuildReportsPostOrder | reporter-web-app/src/models/WebAppTreeNode.js:72-87 | the callback trace is the post-order list of the nodes carrying a package index, each with its key and its parent's key, a root with its own package index |
| WebAppTreeNode.BuildChildrenReportsPostOrder | reporter-web-app/src/models/WebAppOrtResult.js:120-127 | over a list of records the trace is the concatenation, in order, of the post-order traces of the built trees |
| WebAppTreeNode.RootReportsOwnIndex | reporter-web-app/src/models/WebAppTreeNode.js:83-87 | a root carrying a package index is reported last, with its own package index where a child would pass its parent's key |
| WebAppTreeNode.CallbackOncePerPackagedRecord | reporter-web-app/src/models/WebAppTreeNode.js:83-87 | the callback fires exactly once per raw record whose `pkg` is an integer |
| WebAppTreeNode.CallbackOncePerPackagedRecordAll | reporter-web-app/src/models/WebAppTreeNode.js:72-87 | the same count over a list of sibling records |
| WebAppTreeNode.ReportsAreNodeReportsAll | reporter-web-app/src/models/WebAppTreeNode.js:83-87 | every node of the forest that carries a package index is reported, and every report comes from such a node |
| ReverseIndex.Apply | reporter-web-app/src/models/WebAppOrtResult.js:107-129 | the callback applied to every call of a trace in order; its contract is `ReverseIndex.ApplyFromEmpty` and `ReverseIndex.ApplyConcat` |
| ReverseIndex.Record | reporter-web-app/src/models/WebAppOrtResult.js:108-118 | one callback call adds (only) the entry of its package index and leaves every other entry unchanged |
| ReverseIndex.KeysOf | reporter-web-app/src/models/WebAppOrtResult.js:108-118 | the keys passed with a package index are exactly those of the calls with that index |
| ReverseIndex.ParentKeysOf | reporter-web-app/src/models/WebAppOrtResult.js:108-118 | the parent keys passed with a package index are exactly those of the calls with that index |
| ReverseIndex.RecordStep | reporter-web-app/src/models/WebAppOrtResult.js:109-117 | one callback call extends "index accumulates trace" by that call (create on first use, `Set.add` otherwise) |
| ReverseIndex.ApplyFromEmpty | reporter-web-app/src/models/WebAppOrtResult.js:107-129 | from an empty object, the index has an entry exactly for the package indices used, holding the `Set`s of keys and parent keys passed with each, in first-insertion order |
| ReverseIndex.EntriesNonEmpty | reporter-web-app/src/models/WebAppOrtResult.js:109-117 | every entry has non-empty, duplicate-free key and parent-key sets |
| ReverseIndex.ApplyConcat | reporter-web-app/src/models/WebAppOrtResult.js:120-127 | threading one index through the roots one after another equals folding the concatenated trace |
| ReverseIndex.KeysOfDistinct | reporter-web-app/src/models/WebAppOrtResult.js:108-118 | when no two calls pass the same key, the keys passed with a package index repeat nothing |
| ReverseIndex.KeysOfForest | reporter-web-app/src/models/WebAppTreeNode.js:83-87 | over a forest, the calls passing a package index are as many as the nodes carrying it |
| ReverseIndex.KeySetSizeCountsNodes | reporter-web-app/src/models/WebAppOrtResult.js:107-129 | with distinct keys in the forest's reports, a package has an entry iff some node carries it, and its key set has one key per such node |
| ChainExample.ThreeLevelChain | reporter-web-app/src/models/WebAppTreeNode.js:51-56 | for root(key 0) → (key 1, pkg 1) → (key 2, pkg 0): package 1 has keys {1} and parent keys {0}, package 0 keys {2} and parent keys {1}, node 2's chain is [1, 0] |
| JsSet.Add | reporter-web-app/src/models/WebAppOrtResult.js:115-116 | `Set.add` keeps the set duplicate-free, adds exactly the element, appends it only when new and keeps existing order |
| JsSet.FromSeq | reporter-web-app/src/models/WebAppTreeNode.js:58-66 | `new Set(xs)` is duplicate-free with exactly the elements of xs |
| JsSet.FromSeqFirstOccurrenceOrder | reporter-web-app/src/components/TreeView.js:81-90 | `Array.from(new Set(xs))` lists elements in the order of their first occurrence in xs |
| JsSet.SetOfIsFromSeq | reporter-web-app/src/models/WebAppTreeNode.js:58-66 | a list is `new Set(xs)` iff it holds exactly the elements of xs, in the order of their first occurrence in xs |
| JsSet.FromSeqOfSet | reporter-web-app/src/components/TreeView.js:81-90 | building a `Set` from a duplicate-free list returns that list unchanged |
| JsSet.FromSeqSnoc | reporter-web-app/src/models/WebAppOrtResult.js:115-116 | adding an element to `new Set(xs)` is `new Set` of xs followed by the element |
| JsSet.FromSeqAbsorbs | reporter-web-app/src/components/TreeView.js:81-90 | `new Set([...new Set(a), ...b])` equals `new Set([...a, ...b])` |
| JsSet.FromSeqAbsorbsRight | reporter-web-app/src/components/TreeView.js:81-90 | `new Set([...a, ...new Set(b)])` equals `new Set([...a, ...b])` |
| JsSet.FromSeqUnion | reporter-web-app/src/components/TreeView.js:81-90 | the `Set` union of two `Set`s is the `Set` of the concatenated lists |
| Text.ContentStart | reporter-web-app/src/components/TreeView.js:65 | the forward scan of `trim` stops at the first non-whitespace position (or the end), having passed only whitespace |
| Text.ContentEnd | reporter-web-app/src/components/TreeView.js:65 | the backward scan of `trim` stops just after the last non-whitespace position (or at its lower bound), having passed only whitespace |
| Text.Trim | reporter-web-app/src/components/TreeView.js:65 | `value.trim()` neither starts nor ends with whitespace |
| Text.TrimIsSlice | reporter-web-app/src/components/TreeView.js:65 | `value.trim()` is a contiguous slice of the value with only whitespace outside it |
| Text.TrimEmptyIffBlank | reporter-web-app/src/components/TreeView.js:65-67 | the trimmed value is empty iff the value is all whitespace |
| Text.IndexOf | reporter-web-app/src/components/TreeView.js:69 | `indexOf` is the first position where the needle occurs, or -1 when it occurs nowhere |
| Text.ContainsIffOccurs | reporter-web-app/src/components/TreeView.js:69 | `indexOf(t) > -1` holds iff t occurs somewhere in the string |
| WebAppOrtResult.At | reporter-web-app/src/models/WebAppOrtResult.js:355-385 | an array lookup that falls back to null gives the element iff i is an index of the array, null otherwise |
| WebAppOrtResult.ByIndexGetters | reporter-web-app/src/models/WebAppOrtResult.js:355-385 | each by-index getter returns the document section's element at that index when in range, null otherwise |
| WebAppOrtResult.StatsKeys | reporter-web-app/src/models/WebAppOrtResult.js:100-103 | `Object.keys(stats)` lists every license name of the object exactly once, and nothing else, in the object's order |
| WebAppOrtResult.LicenseNameLists | reporter-web-app/src/models/WebAppOrtResult.js:100-135 | declared/detected license lists are the keys of the snake_case statistics if present, else the camelCase ones, else empty |
| WebAppOrtResult.Group | reporter-web-app/src/models/WebAppOrtResult.js:213-254 | the grouping loops of issues and rule violations; its contract is `WebAppOrtResult.GroupIsFilter` and `WebAppOrtResult.GroupPartitions` |
| WebAppOrtResult.AddToGroup | reporter-web-app/src/models/WebAppOrtResult.js:221-227 | one grouping step adds (only) the record's own group and leaves all other groups unchanged |
| WebAppOrtResult.Filter | reporter-web-app/src/models/WebAppOrtResult.js:213-229 | the records of a package index are exactly the input records carrying it |
| WebAppOrtResult.AddToGroupStep | reporter-web-app/src/models/WebAppOrtResult.js:221-227 | one grouping step extends "groups are the per-index filters" by that record |
| WebAppOrtResult.GroupIsFilter | reporter-web-app/src/models/WebAppOrtResult.js:213-229 | grouping gives each used package index exactly its records in input order, and no other groups |
| WebAppOrtResult.GroupPartitions | reporter-web-app/src/models/WebAppOrtResult.js:213-229 | each record lies in the group of its own package index and in no other |
| WebAppOrtResult.IssuesByPackageIndex | reporter-web-app/src/models/WebAppOrtResult.js:375-377 | `getIssuesForPackageIndex(p)` is the document's issues with index p in input order, `[]` when none; the flat list is the input list |
| WebAppOrtResult.HasIssuesForPackageIndexIffSome | reporter-web-app/src/models/WebAppOrtResult.js:407-409 | `hasIssuesForPackageIndex(p)` holds iff some issue carries p |
| WebAppOrtResult.RuleViolationsByPackageIndex | reporter-web-app/src/models/WebAppOrtResult.js:391-393 | `getRuleViolationsForPackageIndex(p)` is the violations (read snake_case first) with index p in input order, `[]` when none; the flat list is the input list |
| WebAppOrtResult.HasRuleViolationsForPackageIndexIffSome | reporter-web-app/src/models/WebAppOrtResult.js:423-425 | `hasRuleViolationsForPackageIndex(p)` holds iff some violation carries p |
| WebAppOrtResult.IndexByName | reporter-web-app/src/models/WebAppOrtResult.js:137-145 | the license name index; its contract is `WebAppOrtResult.IndexByNameIsLast` |
| WebAppOrtResult.IndexByNameIsLast | reporter-web-app/src/models/WebAppOrtResult.js:137-145 | the name index holds exactly the license ids that occur, each mapped to its last position |
| WebAppOrtResult.LicenseByNameIsLast | reporter-web-app/src/models/WebAppOrtResult.js:363-365 | `getLicenseByName(n)` is the last license with id n, null iff no license has that id |
| WebAppOrtResult.Levels | reporter-web-app/src/models/WebAppOrtResult.js:194-198 | the levels loop yields 0, 1, …, depth-1, and nothing for a non-positive depth |
| WebAppOrtResult.LevelsCountUp | reporter-web-app/src/models/WebAppOrtResult.js:189-199 | `levels` counts up from 0 to `totalTreeDepth - 1`, empty without statistics or depth |
| WebAppOrtResult.Projects | reporter-web-app/src/models/WebAppOrtResult.js:147-157 | the projects are exactly the packages flagged as projects |
| WebAppOrtResult.ProjectsMultiplicity | reporter-web-app/src/models/WebAppOrtResult.js:147-157 | each project occurs among the projects as often as among the packages, and no other package occurs |
| WebAppOrtResult.ProjectsAppend | reporter-web-app/src/models/WebAppOrtResult.js:149-155 | the projects of `a + b` are those of `a` followed by those of `b` |
| WebAppOrtResult.ProjectsOfOne | reporter-web-app/src/models/WebAppOrtResult.js:153-155 | a single package is kept iff it is a project |
| WebAppOrtResult.ProjectsArePackages | reporter-web-app/src/models/WebAppOrtResult.js:147-157 | on the built model, `projects` holds exactly the packages flagged as projects, each as often as among the packages, and for any split of the packages the projects of the first part come first |
| WebAppOrtResult.TreeIndexFromForest | reporter-web-app/src/models/WebAppOrtResult.js:105-130 | the reverse index exists iff the document has a trees section, the forest is the built roots, and the index accumulates the forest's post-order trace |
| WebAppOrtResult.FromDocument | reporter-web-app/src/models/WebAppOrtResult.js:88-261 | the constructor; its contract is `WebAppOrtResult.TreeIndexFromForest`, `WebAppOrtResult.ProjectsArePackages`, `WebAppOrtResult.LicenseNameLists`, `WebAppOrtResult.LevelsCountUp`, `WebAppOrtResult.IssuesByPackageIndex` and `WebAppOrtResult.RuleViolationsByPackageIndex` |
| WebAppOrtResult.AnyOpen | reporter-web-app/src/models/WebAppOrtResult.js:395-421 | the test of one statistics bucket group behind `hasIssues`/`hasRuleViolations`; its contract is `WebAppOrtResult.HasFindingsTrustsStatistics` |
| WebAppOrtResult.HasFindingsTrustsStatistics | reporter-web-app/src/models/WebAppOrtResult.js:395-421 | `hasIssues`/`hasRuleViolations` hold iff some severity bucket is positive, whatever the issue and violation records are |
| TreeView.Search | reporter-web-app/src/components/TreeView.js:61-102 | `onChangeSearch`: the search value is the trimmed query and both key lists are duplicate-free; the rest of its contract is `TreeView.SearchIsProjectionThroughIndex`, `TreeView.SearchOrder` and `TreeView.SearchSplits` |
| TreeView.MatchingEntries | reporter-web-app/src/components/TreeView.js:67-77 | the `reduce` collecting index entries; its contract is `TreeView.MatchingEntriesExact` and `TreeView.MatchingEntriesAppend` |
| TreeView.OwnEntry | reporter-web-app/src/components/TreeView.js:69-74 | what one package contributes; its contract is `TreeView.MatchingEntriesSnoc` |
| TreeView.UnionOfKeys | reporter-web-app/src/components/TreeView.js:86-90 | the matched keys are duplicate-free and are exactly the keys of some collected entry; order is `TreeView.UnionsAreSetsOfAll` |
| TreeView.UnionOfParentKeys | reporter-web-app/src/components/TreeView.js:81-85 | the expanded keys are duplicate-free and are exactly the parent keys of some collected entry; order is `TreeView.UnionsAreSetsOfAll` |
| TreeView.PassesFilter | reporter-web-app/src/components/TreeView.js:311-319 | `matchedKeys.includes(node.key)`; its contract is `TreeView.SearchOverForest` |
| TreeView.MatchingEntriesExact | reporter-web-app/src/components/TreeView.js:67-77 | the collected entries are exactly the reverse-index entries of packages whose id contains the search value and that have one |
| TreeView.UnionsAreSetsOfAll | reporter-web-app/src/components/TreeView.js:81-90 | folding entries into a `Set` equals the `Set` of all their keys concatenated in order |
| TreeView.AllKeysMembership | reporter-web-app/src/components/TreeView.js:81-90 | the concatenated keys contain exactly the keys of some collected entry |
| TreeView.BlankQueryClearsSearch | reporter-web-app/src/components/TreeView.js:65-67 | a query of whitespace only gives an empty search value and no matched or expanded keys |
| TreeView.SearchIsProjectionThroughIndex | reporter-web-app/src/components/TreeView.js:61-102 | a key is matched (expanded) iff the search value is non-empty and it is a key (parent key) of the entry of some package whose id contains the value |
| TreeView.SearchOrder | reporter-web-app/src/components/TreeView.js:81-90 | matched and expanded keys are duplicate-free and in order of first occurrence over the collected entries |
| TreeView.MatchingEntriesSnoc | reporter-web-app/src/components/TreeView.js:67-77 | one more package adds its own entry, when it matches and has one, after the entries collected so far |
| TreeView.MatchingEntriesAppend | reporter-web-app/src/components/TreeView.js:67-77 | the entries collected from packages `a + b` are those of `a` followed by those of `b`: packages are visited in array order |
| TreeView.SearchSplits | reporter-web-app/src/components/TreeView.js:67-90 | the matched (expanded) keys for packages `a + b` are the `Set` union of those for `a` followed by those for `b` |
| TreeView.SearchOfOne | reporter-web-app/src/components/TreeView.js:65-90 | for one package, the matched (expanded) keys are the `Set` of its entry's keys (parent keys) when the trimmed query is non-empty, occurs in its id and the package has an entry, and empty otherwise |
| TreeView.SearchLookupIsGetter | reporter-web-app/src/components/TreeView.js:69-73 | what one package contributes to the search is the answer of `getTreeNodeParentKeysByIndex` for its index, when its id contains the search value and the answer is not null |
| TreeView.MatchingEntriesViaGetter | reporter-web-app/src/components/TreeView.js:67-77 | the entries the search collects are, in order, the non-null getter answers for the packages whose id contains the search value |
| TreeView.SearchOverTrace | reporter-web-app/src/components/TreeView.js:67-90 | over an index accumulated from a trace, every call of a matching package contributes its key and parent key; every matched key is the key, and every expanded key the parent key, of such a call |
| TreeView.SearchOverForest | reporter-web-app/src/components/TreeView.js:311-319 | over the index of a forest, every node of a matching package passes the filter and has its callback parent key expanded; every matched key is the key, and every expanded key the callback parent key (for a root, its own package index), of such a node |
| TreeView.SearchOverForestComplete | reporter-web-app/src/components/TreeView.js:311-319 | every node of a matching package passes the filter and has its callback parent key expanded |
| TreeView.SearchOverForestSound | reporter-web-app/src/components/TreeView.js:311-319 | every matched key is the key of a forest node of a matching package |
| TreeView.SearchOverForestExpandedSound | reporter-web-app/src/components/TreeView.js:81-85 | every expanded key is the callback parent key of a forest node of a matching package |
| TreeView.SearchFindsForestNodes | reporter-web-app/src/components/TreeView.js:311-319 | on a report built from any document with trees, every node of a package whose id contains the non-empty trimmed query passes the filter and has its parent key expanded; every matched key is the key, and every expanded key the callback parent key, of such a node |
| TreeView.RenderTitle | reporter-web-app/src/components/TreeView.js:204-223 | the title is split iff it contains the search value, around its first occurrence, and the three parts reassemble the title; otherwise it is kept whole |
| TreeView.EmptySearchValueHighlightsNothing | reporter-web-app/src/components/TreeView.js:204-218 | with an empty search value, which `indexOf` finds at 0, the whole title follows an empty highlight |

## Left out

- Rendering, scrolling, the drawer and the Redux store dispatch of the tree view are not modelled. `onChangeSearch` returns its payload (`SearchResult`) instead of dispatching it. The `console.log` calls and the `window` assignment are dropped.
- The per-node `filterTreeNode` at `TreeView.js` lines 230-234 is not modelled. It only logs and returns `undefined`.
- TreeView.Search takes the reverse index itself rather than the result model, so a report without a trees section cannot be searched in the model. In the source, `getTreeNodeParentKeysByIndex` throws on such a report, but only when it is called: for a package whose id contains a non-empty query. A blank query, or one that matches no package id, still yields empty lists there. `TreeNodeParentKeysByIndex` requires the index, so the throwing getter is not modelled either.
- TreeView.RenderTitle takes the title as a string. A node without a title is not modelled; `item.title.indexOf` would fail on it. The component's `render()` does not call `renderTreeNode`, so which titles reach the split, and with which search value, is outside this model.
- The record classes the result model wraps (copyrights, paths, scan results, scopes, exclusions, licenses, packages, issues, violations, statistics) are not part of this model. Their contents are opaque `Blob`s or the few fields the core reads. Package and issue package indices are integers, as the core uses them.
- `customData`, `repositoryConfiguration`, the license statistics and the resolutions are copied as they are. No property is stated about them beyond the snake_case-first choice.
- The license statistics are a list of (name, count) pairs in `Object.keys` order, with no name twice. JavaScript lists integer-like keys first, and that reordering is not modelled.
- `packageIndexesByPackageNameMap` is declared in the source but never filled or read, so it is not modelled.
- The ancestor chain and the parent link are stored as values: the chain as a sequence, the parent as its key. Object identity is not modelled. The source copies the chain for each child (`[...this.#anchestors]`) so that building one child cannot change its parent's or a sibling's chain. With values this holds by construction, and `WebAppTreeNode.BuildLinked` states each chain outright.
- Next/previous match navigation is not modelled. Only its action dispatch is visible; the reducer that moves between matches is not part of this model.
- The other reporter components (tables, package panels) and the advisor tests are not part of this model. They are rendering and network I/O.
- A section is present when it is truthy. Sections of the wrong shape (a non-array `licenses`, for example) are not modelled.
- Number formats are not modelled. Keys and package indices are mathematical integers. `Number.isInteger` failing is modelled as an absent value (`None`).
- Statistics counters are integers. Floating-point counters are not modelled.
- Strings are sequences of Unicode code points (Dafny's `char`), with no normalisation or case folding. JavaScript strings are sequences of UTF-16 code units. A lone surrogate therefore cannot be represented, and `indexOf` and `substr` positions count code points rather than code units. The two agree on text without characters outside the Basic Multilingual Plane.
- Search matching is stated key by key. A node passes the filter when its key is among the matched keys, so nodes sharing a key (or both lacking one) pass or fail together. `ReverseIndex.KeySetSizeCountsNodes` covers the case of distinct keys.
