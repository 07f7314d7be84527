/** The search of the dependency-tree view: a query is trimmed, matched as a
    case-sensitive substring against every package id, and projected through
    the reverse tree index onto the keys of the tree nodes to highlight
    (`matchedKeys`) and the keys of their parents to expand (`expandedKeys`).
    Also the split of a node title around the search value, and the
    predicate the tree uses to filter nodes. */
module TreeView {
  import opened Wrappers
  import JsSet
  import opened Text
  import opened WebAppTreeNode
  import opened ReverseIndex
  import opened WebAppOrtResult

  datatype SearchResult = SearchResult(searchValue: string, matchedKeys: seq<Key>, expandedKeys: seq<Key>)

  /** The `reduce` over the packages: in package order, the reverse-index
      entry of each package whose id contains `searchValue` and that has an
      entry. */
  function MatchingEntries(searchValue: string, packages: seq<Package>, index: Index): seq<Entry>
  {
    if |packages| == 0 then []
    else
      MatchingEntries(searchValue, packages[..|packages| - 1], index)
        + OwnEntry(searchValue, packages[|packages| - 1], index)
  }

  /** What one package adds to the collection: its entry when its id
      contains `searchValue` and it has one, nothing otherwise. */
  function OwnEntry(searchValue: string, pkg: Package, index: Index): seq<Entry>
  {
    if Contains(pkg.id, searchValue) && pkg.packageIndex in index then [index[pkg.packageIndex]] else []
  }

  /** `reduce((acc, e) => new Set([...acc, ...e.keys]), new Set())`. */
  function UnionOfKeys(entries: seq<Entry>): (r: seq<Key>)
    ensures JsSet.NoDups(r)
    ensures forall k :: k in r <==> exists i :: 0 <= i < |entries| && k in entries[i].keys
  {
    if |entries| == 0 then []
    else JsSet.FromSeq(UnionOfKeys(entries[..|entries| - 1]) + entries[|entries| - 1].keys)
  }

  /** `reduce((acc, e) => new Set([...acc, ...e.parentKeys]), new Set())`. */
  function UnionOfParentKeys(entries: seq<Entry>): (r: seq<Key>)
    ensures JsSet.NoDups(r)
    ensures forall k :: k in r <==> exists i :: 0 <= i < |entries| && k in entries[i].parentKeys
  {
    if |entries| == 0 then []
    else JsSet.FromSeq(UnionOfParentKeys(entries[..|entries| - 1]) + entries[|entries| - 1].parentKeys)
  }

  /** `onChangeSearch`: an empty trimmed query clears the search. */
  function Search(query: string, packages: seq<Package>, index: Index): (r: SearchResult)
    ensures r.searchValue == Trim(query)
    ensures JsSet.NoDups(r.matchedKeys) && JsSet.NoDups(r.expandedKeys)
  {
    var searchValue := Trim(query);
    var entries := if searchValue == "" then [] else MatchingEntries(searchValue, packages, index);
    SearchResult(searchValue, UnionOfKeys(entries), UnionOfParentKeys(entries))
  }

  /** The tree's `filterTreeNode`: a node passes when its key is among the
      matched keys (`includes`, under which `undefined` equals itself). */
  predicate PassesFilter(nodeKey: Key, matchedKeys: seq<Key>)
  {
    nodeKey in matchedKeys
  }

  // ---------------------------------------------------------------------
  // Reference definitions: plain concatenations, without de-duplication

  function AllKeys(entries: seq<Entry>): seq<Key>
  {
    if |entries| == 0 then [] else AllKeys(entries[..|entries| - 1]) + entries[|entries| - 1].keys
  }

  function AllParentKeys(entries: seq<Entry>): seq<Key>
  {
    if |entries| == 0 then [] else AllParentKeys(entries[..|entries| - 1]) + entries[|entries| - 1].parentKeys
  }

  /** The package at position `i` matches `searchValue` and has an entry. */
  ghost predicate MatchesAt(searchValue: string, packages: seq<Package>, index: Index, i: int)
  {
    0 <= i < |packages| && Contains(packages[i].id, searchValue) && packages[i].packageIndex in index
  }

  /** The collected entries are exactly those of the matching packages that
      have one. */
  lemma {:induction false} MatchingEntriesExact(searchValue: string, packages: seq<Package>, index: Index)
    ensures forall e :: e in MatchingEntries(searchValue, packages, index) <==>
      exists i :: MatchesAt(searchValue, packages, index, i) && e == index[packages[i].packageIndex]
  {
    if |packages| > 0 {
      var n := |packages| - 1;
      var init := packages[..n];
      MatchingEntriesExact(searchValue, init, index);
      forall i | 0 <= i < n
        ensures MatchesAt(searchValue, packages, index, i) <==> MatchesAt(searchValue, init, index, i)
        ensures packages[i] == init[i]
      {
      }
    }
  }

  /** Folding the entries into a `Set` is the `Set` of all their keys in
      order: duplicates keep their first position. */
  lemma {:induction false} UnionsAreSetsOfAll(entries: seq<Entry>)
    ensures UnionOfKeys(entries) == JsSet.FromSeq(AllKeys(entries))
    ensures UnionOfParentKeys(entries) == JsSet.FromSeq(AllParentKeys(entries))
  {
    if |entries| > 0 {
      var n := |entries| - 1;
      UnionsAreSetsOfAll(entries[..n]);
      JsSet.FromSeqAbsorbs(AllKeys(entries[..n]), entries[n].keys);
      JsSet.FromSeqAbsorbs(AllParentKeys(entries[..n]), entries[n].parentKeys);
    }
  }

  lemma {:induction false} AllKeysMembership(entries: seq<Entry>)
    ensures forall k :: k in AllKeys(entries) <==> exists e :: e in entries && k in e.keys
    ensures forall k :: k in AllParentKeys(entries) <==> exists e :: e in entries && k in e.parentKeys
  {
    if |entries| > 0 {
      var n := |entries| - 1;
      AllKeysMembership(entries[..n]);
      assert entries == entries[..n] + [entries[n]];
    }
  }

  // ---------------------------------------------------------------------
  // What a search returns

  /** A query that trims to the empty string clears the search: no node is
      matched and none is expanded. */
  lemma BlankQueryClearsSearch(query: string, packages: seq<Package>, index: Index)
    requires forall i :: 0 <= i < |query| ==> IsWhitespace(query[i])
    ensures Search(query, packages, index).searchValue == ""
    ensures Search(query, packages, index).matchedKeys == []
    ensures Search(query, packages, index).expandedKeys == []
  {
    TrimEmptyIffBlank(query);
  }

  /** A key is matched exactly when it is among the reverse-index keys of a
      package whose id contains the trimmed query; a key is expanded exactly
      when it is among the parent keys of such a package. A matching package
      without an entry contributes nothing. */
  lemma SearchIsProjectionThroughIndex(query: string, packages: seq<Package>, index: Index)
    ensures var r := Search(query, packages, index);
      forall k :: k in r.matchedKeys <==>
        r.searchValue != "" && exists i :: MatchesAt(r.searchValue, packages, index, i) && k in index[packages[i].packageIndex].keys
    ensures var r := Search(query, packages, index);
      forall k :: k in r.expandedKeys <==>
        r.searchValue != "" && exists i :: MatchesAt(r.searchValue, packages, index, i) && k in index[packages[i].packageIndex].parentKeys
  {
    var sv := Trim(query);
    if sv != "" {
      var entries := MatchingEntries(sv, packages, index);
      UnionsAreSetsOfAll(entries);
      AllKeysMembership(entries);
      MatchingEntriesExact(sv, packages, index);
    }
  }

  /** Both result lists are duplicate-free and list keys in order of first
      occurrence: packages in array order, and within a package its keys in
      their stored insertion order. */
  lemma SearchOrder(query: string, packages: seq<Package>, index: Index)
    requires Trim(query) != ""
    ensures var entries := MatchingEntries(Trim(query), packages, index);
      && Search(query, packages, index).matchedKeys == JsSet.FromSeq(AllKeys(entries))
      && Search(query, packages, index).expandedKeys == JsSet.FromSeq(AllParentKeys(entries))
    ensures JsSet.NoDups(Search(query, packages, index).matchedKeys)
    ensures JsSet.NoDups(Search(query, packages, index).expandedKeys)
    ensures var keys := Search(query, packages, index).matchedKeys;
      var all := AllKeys(MatchingEntries(Trim(query), packages, index));
      forall i, j :: 0 <= i < j < |keys| ==> JsSet.FirstIndex(all, keys[i]) < JsSet.FirstIndex(all, keys[j])
    ensures var keys := Search(query, packages, index).expandedKeys;
      var all := AllParentKeys(MatchingEntries(Trim(query), packages, index));
      forall i, j :: 0 <= i < j < |keys| ==> JsSet.FirstIndex(all, keys[i]) < JsSet.FirstIndex(all, keys[j])
  {
    var entries := MatchingEntries(Trim(query), packages, index);
    UnionsAreSetsOfAll(entries);
    JsSet.FromSeqFirstOccurrenceOrder(AllKeys(entries));
    JsSet.FromSeqFirstOccurrenceOrder(AllParentKeys(entries));
  }

  /** One more package adds its own entry, if any, after those collected
      so far. */
  lemma MatchingEntriesSnoc(searchValue: string, packages: seq<Package>, pkg: Package, index: Index)
    ensures MatchingEntries(searchValue, packages + [pkg], index)
      == MatchingEntries(searchValue, packages, index) + OwnEntry(searchValue, pkg, index)
  {
    assert (packages + [pkg])[..|packages|] == packages;
  }

  /** The collection runs over the packages in array order: the entries
      collected from `a + b` are those of `a` followed by those of `b`. */
  lemma {:induction false} MatchingEntriesAppend(searchValue: string, a: seq<Package>, b: seq<Package>, index: Index)
    ensures MatchingEntries(searchValue, a + b, index)
      == MatchingEntries(searchValue, a, index) + MatchingEntries(searchValue, b, index)
  {
    if |b| == 0 {
      assert a + b == a;
    } else {
      var m := |b| - 1;
      assert a + b == (a + b[..m]) + [b[m]];
      assert b == b[..m] + [b[m]];
      MatchingEntriesSnoc(searchValue, a + b[..m], b[m], index);
      MatchingEntriesSnoc(searchValue, b[..m], b[m], index);
      MatchingEntriesAppend(searchValue, a, b[..m], index);
    }
  }

  lemma {:induction false} AllKeysAppend(a: seq<Entry>, b: seq<Entry>)
    ensures AllKeys(a + b) == AllKeys(a) + AllKeys(b)
    ensures AllParentKeys(a + b) == AllParentKeys(a) + AllParentKeys(b)
  {
    if |b| == 0 {
      assert a + b == a;
    } else {
      var m := |b| - 1;
      assert a + b == (a + b[..m]) + [b[m]];
      assert b == b[..m] + [b[m]];
      AllKeysSnoc(a + b[..m], b[m]);
      AllKeysSnoc(b[..m], b[m]);
      AllKeysAppend(a, b[..m]);
    }
  }

  lemma AllKeysSnoc(es: seq<Entry>, e: Entry)
    ensures AllKeys(es + [e]) == AllKeys(es) + e.keys
    ensures AllParentKeys(es + [e]) == AllParentKeys(es) + e.parentKeys
  {
    assert (es + [e])[..|es|] == es;
  }

  /** Searching the packages `a + b` gives the `Set` union of the results
      for `a` and for `b`, in that order: keys found through earlier
      packages come first. */
  lemma SearchSplits(query: string, a: seq<Package>, b: seq<Package>, index: Index)
    ensures Search(query, a + b, index).matchedKeys
      == JsSet.FromSeq(Search(query, a, index).matchedKeys + Search(query, b, index).matchedKeys)
    ensures Search(query, a + b, index).expandedKeys
      == JsSet.FromSeq(Search(query, a, index).expandedKeys + Search(query, b, index).expandedKeys)
  {
    var sv := Trim(query);
    if sv == "" {
      assert JsSet.FromSeq<Key>([] + []) == [];
    } else {
      var ea, eb := MatchingEntries(sv, a, index), MatchingEntries(sv, b, index);
      MatchingEntriesAppend(sv, a, b, index);
      UnionsAreSetsOfAll(ea);
      UnionsAreSetsOfAll(eb);
      UnionsAreSetsOfAll(ea + eb);
      AllKeysAppend(ea, eb);
      JsSet.FromSeqUnion(AllKeys(ea), AllKeys(eb));
      JsSet.FromSeqUnion(AllParentKeys(ea), AllParentKeys(eb));
    }
  }

  /** A single package yields the `Set`s of its entry's keys and parent
      keys when its id contains the trimmed query and it has an entry, and
      nothing otherwise. */
  lemma SearchOfOne(query: string, pkg: Package, index: Index)
    ensures var sv := Trim(query);
      var found := sv != "" && Contains(pkg.id, sv) && pkg.packageIndex in index;
      && Search(query, [pkg], index).matchedKeys == (if found then JsSet.FromSeq(index[pkg.packageIndex].keys) else [])
      && Search(query, [pkg], index).expandedKeys == (if found then JsSet.FromSeq(index[pkg.packageIndex].parentKeys) else [])
  {
    var sv := Trim(query);
    if sv != "" {
      MatchingEntriesSnoc(sv, [], pkg, index);
      assert [] + [pkg] == [pkg];
      var es := OwnEntry(sv, pkg, index);
      if |es| == 1 {
        var e := es[0];
        assert es[..0] == [];
        assert UnionOfKeys(es) == JsSet.FromSeq([] + e.keys) && [] + e.keys == e.keys;
        assert UnionOfParentKeys(es) == JsSet.FromSeq([] + e.parentKeys) && [] + e.parentKeys == e.parentKeys;
      }
    }
  }

  /** The package `reduce` as written against the result model: match the
      id, ask `getTreeNodeParentKeysByIndex`, and push its answer when it
      is not null. */
  function CollectViaGetter(searchValue: string, packages: seq<Package>, r: OrtResult): seq<Entry>
    requires r.treeNodesByPackageIndex.Some?
  {
    if |packages| == 0 then []
    else
      var pkg := packages[|packages| - 1];
      var answer := r.TreeNodeParentKeysByIndex(pkg.packageIndex);
      CollectViaGetter(searchValue, packages[..|packages| - 1], r)
        + (if Contains(pkg.id, searchValue) && answer.Some? then [answer.value] else [])
  }

  /** What one package contributes to the search is what the source
      pushes for it: the getter's answer, when the id contains the search
      value and the answer is not null; the getter answers for a package
      exactly when the index has an entry for it. */
  lemma SearchLookupIsGetter(r: OrtResult, searchValue: string, pkg: Package)
    requires r.treeNodesByPackageIndex.Some?
    ensures var answer := r.TreeNodeParentKeysByIndex(pkg.packageIndex);
      OwnEntry(searchValue, pkg, r.treeNodesByPackageIndex.value)
        == (if Contains(pkg.id, searchValue) && answer.Some? then [answer.value] else [])
    ensures (pkg.packageIndex in r.treeNodesByPackageIndex.value) <==> r.TreeNodeParentKeysByIndex(pkg.packageIndex).Some?
  {
  }

  /** Reading the index directly collects the same entries, in the same
      order, as the `reduce` that asks the getter package by package. */
  lemma {:induction false} MatchingEntriesViaGetter(searchValue: string, packages: seq<Package>, r: OrtResult)
    requires r.treeNodesByPackageIndex.Some?
    ensures MatchingEntries(searchValue, packages, r.treeNodesByPackageIndex.value)
      == CollectViaGetter(searchValue, packages, r)
  {
    if |packages| > 0 {
      MatchingEntriesViaGetter(searchValue, packages[..|packages| - 1], r);
      SearchLookupIsGetter(r, searchValue, packages[|packages| - 1]);
    }
  }

  // ---------------------------------------------------------------------
  // Search over a built report

  /** The package at position `i` has an id containing `searchValue` and
      its index is `p`. */
  ghost predicate NamesMatch(searchValue: string, packages: seq<Package>, i: int, p: int)
  {
    0 <= i < |packages| && packages[i].packageIndex == p && Contains(packages[i].id, searchValue)
  }

  /** Over an index accumulated from a trace of callback calls: every call
      whose package matches contributes its key to the matched keys and its
      parent key to the expanded keys; every matched key was passed as the
      key, and every expanded key as the parent key, of a call whose package
      matches. */
  lemma SearchOverTrace(query: string, packages: seq<Package>, index: Index, calls: seq<Call>)
    requires Accumulates(index, calls)
    ensures var res := Search(query, packages, index);
      forall c, i :: c in calls && res.searchValue != "" && NamesMatch(res.searchValue, packages, i, c.packageIndex)
        ==> c.key in res.matchedKeys && c.parentKey in res.expandedKeys
    ensures var res := Search(query, packages, index);
      forall k :: k in res.matchedKeys ==>
        exists c, i :: c in calls && c.key == k && NamesMatch(res.searchValue, packages, i, c.packageIndex)
    ensures var res := Search(query, packages, index);
      forall k :: k in res.expandedKeys ==>
        exists c, i :: c in calls && c.parentKey == k && NamesMatch(res.searchValue, packages, i, c.packageIndex)
  {
    var res := Search(query, packages, index);
    SearchIsProjectionThroughIndex(query, packages, index);
    forall c, i | c in calls && res.searchValue != "" && NamesMatch(res.searchValue, packages, i, c.packageIndex)
      ensures c.key in res.matchedKeys && c.parentKey in res.expandedKeys
    {
      var p := c.packageIndex;
      assert Mentions(calls, p);
      assert c.key in KeysOf(calls, p);
      assert c.parentKey in ParentKeysOf(calls, p);
      assert MatchesAt(res.searchValue, packages, index, i);
    }
    forall k | k in res.matchedKeys
      ensures exists c, i :: c in calls && c.key == k && NamesMatch(res.searchValue, packages, i, c.packageIndex)
    {
      var i :| MatchesAt(res.searchValue, packages, index, i) && k in index[packages[i].packageIndex].keys;
      var p := packages[i].packageIndex;
      assert k in KeysOf(calls, p);
      var c :| c in calls && c.packageIndex == p && c.key == k;
      assert NamesMatch(res.searchValue, packages, i, c.packageIndex);
    }
    forall k | k in res.expandedKeys
      ensures exists c, i :: c in calls && c.parentKey == k && NamesMatch(res.searchValue, packages, i, c.packageIndex)
    {
      var i :| MatchesAt(res.searchValue, packages, index, i) && k in index[packages[i].packageIndex].parentKeys;
      var p := packages[i].packageIndex;
      assert k in ParentKeysOf(calls, p);
      var c :| c in calls && c.packageIndex == p && c.parentKey == k;
      assert NamesMatch(res.searchValue, packages, i, c.packageIndex);
    }
  }

  /** Over an index accumulated from the reports of a forest: every node
      whose package matches passes the filter and has its callback parent
      key expanded; every matched key is the key, and every expanded key the
      callback parent key, of such a node. For a root the callback parent
      key is its own package index, not a node key. */
  lemma SearchOverForest(query: string, packages: seq<Package>, index: Index, forest: seq<Node>)
    requires Accumulates(index, ReportsAll(forest))
    ensures var res := Search(query, packages, index);
      forall m, i :: m in NodesAll(forest) && m.TreeNode? && m.packageIndex.Some?
        && res.searchValue != "" && NamesMatch(res.searchValue, packages, i, m.packageIndex.value)
        ==> PassesFilter(m.key, res.matchedKeys) && CallbackParentKey(m) in res.expandedKeys
    ensures var res := Search(query, packages, index);
      forall k :: k in res.matchedKeys ==>
        exists m, i :: (m in NodesAll(forest) && m.TreeNode? && m.packageIndex.Some? && m.key == k
          && NamesMatch(res.searchValue, packages, i, m.packageIndex.value))
    ensures var res := Search(query, packages, index);
      forall k :: k in res.expandedKeys ==>
        exists m, i :: (m in NodesAll(forest) && m.TreeNode? && m.packageIndex.Some? && CallbackParentKey(m) == k
          && NamesMatch(res.searchValue, packages, i, m.packageIndex.value))
  {
    var res := Search(query, packages, index);
    var calls, nodes := ReportsAll(forest), NodesAll(forest);
    SearchOverTrace(query, packages, index, calls);
    ReportsAreNodeReportsAll(forest);
    SearchOverForestComplete(res.searchValue, packages, res.matchedKeys, res.expandedKeys, calls, nodes);
    SearchOverForestSound(res.searchValue, packages, res.matchedKeys, calls, nodes);
    SearchOverForestExpandedSound(res.searchValue, packages, res.expandedKeys, calls, nodes);
  }

  /** Completeness over a set of nodes and their reports: a node of a
      matching package passes the filter and has its parent key expanded
      when every report of a matching package contributes its keys. */
  lemma SearchOverForestComplete(searchValue: string, packages: seq<Package>, matchedKeys: seq<Key>,
                                 expandedKeys: seq<Key>, calls: seq<Call>, nodes: seq<Node>)
    requires forall c, i ::
      c in calls && searchValue != "" && NamesMatch(searchValue, packages, i, c.packageIndex)
      ==> c.key in matchedKeys && c.parentKey in expandedKeys
    requires forall m :: m in nodes ==> forall c :: c in ReportOf(m) ==> c in calls
    ensures forall m, i ::
      m in nodes && m.TreeNode? && m.packageIndex.Some?
      && searchValue != "" && NamesMatch(searchValue, packages, i, m.packageIndex.value)
      ==> PassesFilter(m.key, matchedKeys) && CallbackParentKey(m) in expandedKeys
  {
    forall m, i | m in nodes && m.TreeNode? && m.packageIndex.Some?
        && searchValue != "" && NamesMatch(searchValue, packages, i, m.packageIndex.value)
      ensures PassesFilter(m.key, matchedKeys) && CallbackParentKey(m) in expandedKeys
    {
      var c := Call(m.packageIndex.value, m.key, CallbackParentKey(m));
      assert c in ReportOf(m);
    }
  }

  /** Soundness over a set of nodes and their reports: a matched key that
      comes from a report of a matching package is the key of such a node. */
  lemma SearchOverForestSound(searchValue: string, packages: seq<Package>, matchedKeys: seq<Key>,
                              calls: seq<Call>, nodes: seq<Node>)
    requires forall k :: k in matchedKeys ==>
      exists c, i :: c in calls && c.key == k && NamesMatch(searchValue, packages, i, c.packageIndex)
    requires forall c :: c in calls ==> exists m :: m in nodes && c in ReportOf(m)
    ensures forall k :: k in matchedKeys ==>
      exists m, i :: (m in nodes && m.TreeNode? && m.packageIndex.Some? && m.key == k
        && NamesMatch(searchValue, packages, i, m.packageIndex.value))
  {
    forall k | k in matchedKeys
      ensures exists m, i :: (m in nodes && m.TreeNode? && m.packageIndex.Some? && m.key == k
        && NamesMatch(searchValue, packages, i, m.packageIndex.value))
    {
      var c, i :| c in calls && c.key == k && NamesMatch(searchValue, packages, i, c.packageIndex);
      var m :| m in nodes && c in ReportOf(m);
      assert m.TreeNode? && m.packageIndex == Some(c.packageIndex) && m.key == k;
    }
  }

  /** Soundness of the expansion over a set of nodes and their reports: an
      expanded key that comes from a report of a matching package is the
      callback parent key of such a node. */
  lemma SearchOverForestExpandedSound(searchValue: string, packages: seq<Package>, expandedKeys: seq<Key>,
                                      calls: seq<Call>, nodes: seq<Node>)
    requires forall k :: k in expandedKeys ==>
      exists c, i :: c in calls && c.parentKey == k && NamesMatch(searchValue, packages, i, c.packageIndex)
    requires forall c :: c in calls ==> exists m :: m in nodes && c in ReportOf(m)
    ensures forall k :: k in expandedKeys ==>
      exists m, i :: (m in nodes && m.TreeNode? && m.packageIndex.Some? && CallbackParentKey(m) == k
        && NamesMatch(searchValue, packages, i, m.packageIndex.value))
  {
    forall k | k in expandedKeys
      ensures exists m, i :: (m in nodes && m.TreeNode? && m.packageIndex.Some? && CallbackParentKey(m) == k
        && NamesMatch(searchValue, packages, i, m.packageIndex.value))
    {
      var c, i :| c in calls && c.parentKey == k && NamesMatch(searchValue, packages, i, c.packageIndex);
      var m :| m in nodes && c in ReportOf(m);
      assert m.TreeNode? && m.packageIndex == Some(c.packageIndex) && CallbackParentKey(m) == k;
    }
  }

  /** On a report built from a document with dependency trees, every node
      carrying the package index of a package whose id contains the trimmed
      query passes the tree filter and has its callback parent key expanded;
      every matched key is the key, and every expanded key the callback
      parent key, of such a node. */
  lemma SearchFindsForestNodes(d: Document, query: string)
    requires d.dependencyTrees.Resolve().Some?
    ensures var r := FromDocument(Some(d));
      var res := Search(query, r.packages, r.treeNodesByPackageIndex.value);
      forall m, i :: m in NodesAll(r.dependencyTrees) && m.TreeNode? && m.packageIndex.Some?
        && res.searchValue != "" && NamesMatch(res.searchValue, r.packages, i, m.packageIndex.value)
        ==> PassesFilter(m.key, res.matchedKeys) && CallbackParentKey(m) in res.expandedKeys
    ensures var r := FromDocument(Some(d));
      var res := Search(query, r.packages, r.treeNodesByPackageIndex.value);
      forall k :: k in res.matchedKeys ==>
        exists m, i :: (m in NodesAll(r.dependencyTrees) && m.TreeNode? && m.packageIndex.Some? && m.key == k
          && NamesMatch(res.searchValue, r.packages, i, m.packageIndex.value))
    ensures var r := FromDocument(Some(d));
      var res := Search(query, r.packages, r.treeNodesByPackageIndex.value);
      forall k :: k in res.expandedKeys ==>
        exists m, i :: (m in NodesAll(r.dependencyTrees) && m.TreeNode? && m.packageIndex.Some? && CallbackParentKey(m) == k
          && NamesMatch(res.searchValue, r.packages, i, m.packageIndex.value))
  {
    var r := FromDocument(Some(d));
    TreeIndexFromForest(d);
    SearchOverForest(query, r.packages, r.treeNodesByPackageIndex.value, r.dependencyTrees);
  }

  // ---------------------------------------------------------------------
  // Title highlighting

  /** A node title, either split around the first occurrence of the search
      value or left whole. */
  datatype Title = Plain(text: string) | Highlighted(before: string, found: string, after: string)

  /** The title split of `renderTreeNode`: `substr(0, index)`, the search
      value, `substr(index + searchValue.length)`, when `indexOf` finds it.
      The component's `render()` hands the forest to the tree as data and
      does not call `renderTreeNode`; the split is modelled as written. */
  function RenderTitle(title: string, searchValue: string): (t: Title)
    ensures t.Highlighted? <==> Contains(title, searchValue)
    ensures t.Highlighted? ==> t.found == searchValue && t.before + t.found + t.after == title
    ensures t.Highlighted? ==> forall j :: 0 <= j < |t.before| ==> !OccursAt(title, searchValue, j)
    ensures t.Plain? ==> t.text == title
  {
    var index := IndexOf(title, searchValue);
    if index > -1 then
      var t := Highlighted(title[..index], searchValue, title[index + |searchValue|..]);
      assert t.before + t.found + t.after == title[..index] + title[index..index + |searchValue|] + title[index + |searchValue|..];
      t
    else Plain(title)
  }

  /** An empty search value is found by `indexOf` at 0, so the whole title
      is rendered after an empty highlight. */
  lemma EmptySearchValueHighlightsNothing(title: string)
    ensures RenderTitle(title, "") == Highlighted("", "", title)
  {
    assert OccursAt(title, "", 0);
  }
}
