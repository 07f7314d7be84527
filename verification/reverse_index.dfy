/** The reverse tree index: for each package index, the keys of the tree
    nodes where the package occurs and the keys of those nodes' parents,
    each kept as a JavaScript `Set`. It is accumulated by the construction
    callback of the result model, one `Call` at a time. */
module ReverseIndex {
  import JsSet
  import opened WebAppTreeNode

  datatype Entry = Entry(keys: seq<Key>, parentKeys: seq<Key>)

  type Index = map<int, Entry>

  /** The callback: creates the entry on first use of a package index,
      otherwise adds the key and the parent key to the existing sets. */
  function Record(index: Index, c: Call): (r: Index)
    ensures r.Keys == index.Keys + {c.packageIndex}
    ensures forall p :: p in index && p != c.packageIndex ==> r[p] == index[p]
  {
    if c.packageIndex !in index then
      index[c.packageIndex := Entry([c.key], [c.parentKey])]
    else
      var e := index[c.packageIndex];
      index[c.packageIndex := Entry(JsSet.Add(e.keys, c.key), JsSet.Add(e.parentKeys, c.parentKey))]
  }

  /** The callback applied to every call of a trace, in order. */
  function Apply(index: Index, calls: seq<Call>): Index
  {
    if |calls| == 0 then index else Record(Apply(index, calls[..|calls| - 1]), calls[|calls| - 1])
  }

  /** The keys passed with package index `p`, in call order. */
  function KeysOf(calls: seq<Call>, p: int): (r: seq<Key>)
    ensures forall k :: k in r <==> exists c :: c in calls && c.packageIndex == p && c.key == k
  {
    if |calls| == 0 then []
    else
      var last := calls[|calls| - 1];
      assert calls == calls[..|calls| - 1] + [last];
      KeysOf(calls[..|calls| - 1], p) + (if last.packageIndex == p then [last.key] else [])
  }

  /** The parent keys passed with package index `p`, in call order. */
  function ParentKeysOf(calls: seq<Call>, p: int): (r: seq<Key>)
    ensures forall k :: k in r <==> exists c :: c in calls && c.packageIndex == p && c.parentKey == k
  {
    if |calls| == 0 then []
    else
      var last := calls[|calls| - 1];
      assert calls == calls[..|calls| - 1] + [last];
      ParentKeysOf(calls[..|calls| - 1], p) + (if last.packageIndex == p then [last.parentKey] else [])
  }

  /** Some call of the trace used package index `p`. */
  ghost predicate Mentions(calls: seq<Call>, p: int)
  {
    exists c :: c in calls && c.packageIndex == p
  }

  /** `index` is what the callback accumulates from `calls`: an entry
      exactly for the package indices used, holding the `Set`s of the keys
      and parent keys passed with each. */
  ghost predicate Accumulates(index: Index, calls: seq<Call>)
  {
    && (forall p :: p in index <==> Mentions(calls, p))
    && (forall p :: p in index ==>
          index[p] == Entry(JsSet.FromSeq(KeysOf(calls, p)), JsSet.FromSeq(ParentKeysOf(calls, p))))
  }

  /** One callback invocation extends the accumulated index by one call:
      the last call of `all`. */
  lemma RecordStep(index: Index, all: seq<Call>)
    requires |all| > 0 && Accumulates(index, all[..|all| - 1])
    ensures Accumulates(Record(index, all[|all| - 1]), all)
  {
    var r := Record(index, all[|all| - 1]);
    forall p
      ensures p in r <==> Mentions(all, p)
    {
      MentionsSnoc(all, p);
    }
    forall p | p in r
      ensures r[p] == Entry(JsSet.FromSeq(KeysOf(all, p)), JsSet.FromSeq(ParentKeysOf(all, p)))
    {
      RecordStepAt(index, all, p);
    }
  }

  /** A trace mentions `p` when its prefix does or its last call uses `p`. */
  lemma MentionsSnoc(all: seq<Call>, p: int)
    requires |all| > 0
    ensures Mentions(all, p) <==> Mentions(all[..|all| - 1], p) || all[|all| - 1].packageIndex == p
  {
    var n := |all| - 1;
    assert all == all[..n] + [all[n]];
  }

  lemma RecordStepAt(index: Index, all: seq<Call>, p: int)
    requires |all| > 0 && Accumulates(index, all[..|all| - 1])
    requires p in Record(index, all[|all| - 1])
    ensures Record(index, all[|all| - 1])[p] ==
      Entry(JsSet.FromSeq(KeysOf(all, p)), JsSet.FromSeq(ParentKeysOf(all, p)))
  {
    var n := |all| - 1;
    var calls, c := all[..n], all[n];
    var ks, pks := KeysOf(calls, p), ParentKeysOf(calls, p);
    if p != c.packageIndex {
      assert KeysOf(all, p) == ks && ParentKeysOf(all, p) == pks;
    } else {
      assert KeysOf(all, p) == ks + [c.key];
      assert ParentKeysOf(all, p) == pks + [c.parentKey];
      JsSet.FromSeqSnoc(ks, c.key);
      JsSet.FromSeqSnoc(pks, c.parentKey);
      if p !in index {
        NothingPassed(calls, p);
      }
    }
  }

  /** A package index no call used has no keys and no parent keys. */
  lemma NothingPassed(calls: seq<Call>, p: int)
    requires !Mentions(calls, p)
    ensures KeysOf(calls, p) == [] && ParentKeysOf(calls, p) == []
  {
    if KeysOf(calls, p) != [] {
      assert KeysOf(calls, p)[0] in KeysOf(calls, p);
    }
    if ParentKeysOf(calls, p) != [] {
      assert ParentKeysOf(calls, p)[0] in ParentKeysOf(calls, p);
    }
  }

  /** After any trace of callback calls starting from an empty index, the
      entry for `p` exists exactly when some call used `p`, and its key sets
      are the `Set`s of the keys and parent keys passed with `p`, in the
      order they were passed. */
  lemma {:induction false} ApplyFromEmpty(calls: seq<Call>)
    ensures Accumulates(Apply(map[], calls), calls)
  {
    if |calls| > 0 {
      var n := |calls| - 1;
      ApplyFromEmpty(calls[..n]);
      RecordStep(Apply(map[], calls[..n]), calls);
    }
  }

  /** Each entry of an index built from empty has non-empty key sets, and
      neither set repeats an element. */
  lemma EntriesNonEmpty(calls: seq<Call>, p: int)
    requires p in Apply(map[], calls)
    ensures |Apply(map[], calls)[p].keys| > 0 && |Apply(map[], calls)[p].parentKeys| > 0
    ensures JsSet.NoDups(Apply(map[], calls)[p].keys) && JsSet.NoDups(Apply(map[], calls)[p].parentKeys)
  {
    ApplyFromEmpty(calls);
    var c :| c in calls && c.packageIndex == p;
    assert c.key in KeysOf(calls, p);
    assert c.parentKey in ParentKeysOf(calls, p);
  }

  /** Threading the index through two traces one after the other is the
      same as applying their concatenation: the accumulator can be passed
      from root to root. */
  lemma {:induction false} ApplyConcat(index: Index, a: seq<Call>, b: seq<Call>)
    ensures Apply(Apply(index, a), b) == Apply(index, a + b)
  {
    if |b| > 0 {
      var m := |b| - 1;
      ApplyConcat(index, a, b[..m]);
      assert (a + b)[..|a + b| - 1] == a + b[..m];
    } else {
      assert a + b == a;
    }
  }

  // ---------------------------------------------------------------------
  // Size of the key sets

  /** No two calls of the trace pass the same key. */
  ghost predicate DistinctKeys(calls: seq<Call>)
  {
    forall i, j :: 0 <= i < j < |calls| ==> calls[i].key != calls[j].key
  }

  lemma KeysOfSnoc(calls: seq<Call>, c: Call, p: int)
    ensures KeysOf(calls + [c], p) == KeysOf(calls, p) + (if c.packageIndex == p then [c.key] else [])
  {
    assert (calls + [c])[..|calls|] == calls;
  }

  /** The keys passed with `p` over two traces are those of the first
      followed by those of the second. */
  lemma {:induction false} KeysOfAppend(a: seq<Call>, b: seq<Call>, p: int)
    ensures KeysOf(a + b, p) == KeysOf(a, p) + KeysOf(b, p)
  {
    if |b| == 0 {
      assert a + b == a;
    } else {
      var m := |b| - 1;
      assert a + b == (a + b[..m]) + [b[m]];
      assert b == b[..m] + [b[m]];
      KeysOfSnoc(a + b[..m], b[m], p);
      KeysOfSnoc(b[..m], b[m], p);
      KeysOfAppend(a, b[..m], p);
    }
  }

  /** With distinct keys, the keys passed with `p` are already a `Set`. */
  lemma {:induction false} KeysOfDistinct(calls: seq<Call>, p: int)
    requires DistinctKeys(calls)
    ensures JsSet.NoDups(KeysOf(calls, p))
  {
    if |calls| > 0 {
      var n := |calls| - 1;
      var init, last := calls[..n], calls[n];
      assert DistinctKeys(init);
      KeysOfDistinct(init, p);
      assert init + [last] == calls;
      KeysOfSnoc(init, last, p);
      if last.packageIndex == p {
        forall k | k in KeysOf(init, p)
          ensures k != last.key
        {
          var c :| c in init && c.packageIndex == p && c.key == k;
          var i :| 0 <= i < n && init[i] == c;
          assert calls[i] == c;
        }
        assert JsSet.Add(KeysOf(init, p), last.key) == KeysOf(init, p) + [last.key];
      }
    }
  }

  /** A trace with the keys passed with `p` mentions `p`, and conversely. */
  lemma MentionsIffKeys(calls: seq<Call>, p: int)
    ensures Mentions(calls, p) <==> |KeysOf(calls, p)| > 0
  {
    if Mentions(calls, p) {
      var c :| c in calls && c.packageIndex == p;
      assert c.key in KeysOf(calls, p);
    } else {
      NothingPassed(calls, p);
    }
  }

  /** The calls of a tree's reports passing `p` are as many as its nodes
      carrying `p`. */
  lemma {:induction false} KeysOfTree(n: Node, p: int)
    ensures |KeysOf(Reports(n), p)| == CountWithPackage(Nodes(n), p)
    decreases n
  {
    if n.TreeNode? {
      KeysOfForest(n.children, p);
      KeysOfAppend(ReportsAll(n.children), ReportOf(n), p);
      CountWithPackageAppend(NodesAll(n.children), [n], p);
      assert [n][..0] == [];
      if n.packageIndex.Some? {
        var c := Call(n.packageIndex.value, n.key, CallbackParentKey(n));
        assert [c][..0] == [];
      }
    }
  }

  lemma {:induction false} KeysOfForest(ns: seq<Node>, p: int)
    ensures |KeysOf(ReportsAll(ns), p)| == CountWithPackage(NodesAll(ns), p)
    decreases ns
  {
    if |ns| > 0 {
      var m := |ns| - 1;
      KeysOfForest(ns[..m], p);
      KeysOfTree(ns[m], p);
      KeysOfAppend(ReportsAll(ns[..m]), Reports(ns[m]), p);
      CountWithPackageAppend(NodesAll(ns[..m]), Nodes(ns[m]), p);
    }
  }

  /** When the forest's reports carry distinct keys, a package's key set
      has one key per node of the forest that carries the package, and the
      package has an entry exactly when some node carries it. */
  lemma KeySetSizeCountsNodes(forest: seq<Node>, p: int)
    requires DistinctKeys(ReportsAll(forest))
    ensures var index := Apply(map[], ReportsAll(forest));
      && (p in index <==> CountWithPackage(NodesAll(forest), p) > 0)
      && (p in index ==> |index[p].keys| == CountWithPackage(NodesAll(forest), p))
  {
    var calls := ReportsAll(forest);
    ApplyFromEmpty(calls);
    KeysOfForest(forest, p);
    MentionsIffKeys(calls, p);
    KeysOfDistinct(calls, p);
    JsSet.FromSeqOfSet(KeysOf(calls, p));
  }
}
