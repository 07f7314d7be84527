/** The dependency forest of the report: how raw tree records become tree
    nodes with keys, package indices, exclusion sets, a parent link and an
    ancestor chain, and the order in which construction reports each node
    that carries a package index.

    The source passes a callback `(packageIndex, key, parentKey)` down the
    construction; its return value is ignored, so everything the callback can
    observe is the sequence of its invocations. `Build` returns that sequence
    (a `Call` trace) next to the node; a consumer folds the trace (see module
    `ReverseIndex`). */
module WebAppTreeNode {
  import opened Wrappers
  import opened Fields
  import JsSet

  /** A key as the JavaScript code sees it: an integer, or `undefined`
      (`None`) when the raw record's key was not an integer. */
  type Key = Option<int>

  /** A raw tree record of the report. `Blank` is a falsy entry (`null`,
      `undefined`) in a list of roots or children. In `Raw`, `key` and `pkg`
      are `None` when the raw value is not an integer, `title` is `""` when
      absent, and an absent `children` list is the empty list. */
  datatype RawNode =
    | Blank
    | Raw(key: Key, pkg: Option<int>, title: string,
          pathExcludes: Aliased<seq<int>>, scopeExcludes: Aliased<seq<int>>,
          children: seq<RawNode>)

  /** The parent link of a node: the parent is identified by its key. */
  datatype Parent = NoParent | ParentNode(key: Key)

  /** A constructed tree node. `EmptyNode` is what a falsy raw record yields:
      an object none of whose fields were set. */
  datatype Node =
    | EmptyNode
    | TreeNode(key: Key, packageIndex: Option<int>, title: Option<string>,
               pathExcludes: seq<int>, scopeExcludes: seq<int>,
               ancestors: seq<int>, children: seq<Node>, parent: Parent)

  /** Where a record is built: as a root (no parent, no inherited chain), or
      as a child of the node with key `parentKey`, receiving its own copy
      `chain` of the parent's ancestor chain. */
  datatype Context = Root | Child(parentKey: Key, chain: seq<int>)

  /** One invocation of the construction callback. */
  datatype Call = Call(packageIndex: int, key: Key, parentKey: Key)

  datatype Built = Built(node: Node, calls: seq<Call>)

  datatype BuiltList = BuiltList(nodes: seq<Node>, calls: seq<Call>)

  /** The `WebAppTreeNode` constructor. The ancestor chain starts as the
      inherited copy (empty for a root); a non-root node appends its own
      package index to it. Children are built left to right, each with a
      fresh copy of this node's chain, and the callback for this node fires
      after all of theirs. */
  function Build(raw: RawNode, ctx: Context): (b: Built)
    ensures raw.Blank? <==> b.node.EmptyNode?
    ensures raw.Blank? ==> b.calls == []
    ensures raw.Raw? ==> |b.node.children| == |raw.children|
    decreases raw
  {
    match raw
    case Blank => Built(EmptyNode, [])
    case Raw(key, pkg, title, pathExcludes, scopeExcludes, children) =>
      var chain := match ctx
        case Root => []
        case Child(_, inherited) => inherited + ToSeq(pkg);
      var kids := BuildChildren(children, Child(key, chain));
      var parent := match ctx
        case Root => NoParent
        case Child(parentKey, _) => ParentNode(parentKey);
      var own := match pkg
        case None => []
        case Some(p) =>
          var parentKey := match ctx
            case Root => pkg
            case Child(k, _) => k;
          [Call(p, key, parentKey)];
      var node := TreeNode(
        key, pkg, if title == "" then None else Some(title),
        JsSet.FromSeq(pathExcludes.Resolve().GetOr([])),
        JsSet.FromSeq(scopeExcludes.Resolve().GetOr([])),
        chain, kids.nodes, parent);
      Built(node, kids.calls + own)
  }

  /** The loop over a list of raw records, all built in the same context:
      the children of one node, or the roots of the forest (`Root`). */
  function BuildChildren(raws: seq<RawNode>, ctx: Context): (b: BuiltList)
    ensures |b.nodes| == |raws|
    ensures forall i :: 0 <= i < |raws| ==> b.nodes[i] == Build(raws[i], ctx).node
    decreases raws
  {
    if |raws| == 0 then BuiltList([], [])
    else
      var init := BuildChildren(raws[..|raws| - 1], ctx);
      var last := Build(raws[|raws| - 1], ctx);
      BuiltList(init.nodes + [last.node], init.calls + last.calls)
  }

  /** One step of construction, with the children left folded. */
  lemma BuildStep(raw: RawNode, ctx: Context)
    requires raw.Raw?
    ensures var kids := BuildChildren(raw.children, Child(raw.key, ChainIn(ctx, raw.pkg)));
      var parentKey := if ctx.Root? then raw.pkg else ctx.parentKey;
      && Build(raw, ctx).calls == kids.calls + (if raw.pkg.Some? then [Call(raw.pkg.value, raw.key, parentKey)] else [])
      && Build(raw, ctx).node.children == kids.nodes
      && Build(raw, ctx).node.ancestors == ChainIn(ctx, raw.pkg)
  {
  }

  /** A root carrying a package index is reported last, after its
      subtree, with that package index in place of a parent key. */
  lemma RootReportsOwnIndex(raw: RawNode)
    requires raw.Raw? && raw.pkg.Some?
    ensures var cs := Build(raw, Root).calls;
      |cs| > 0 && cs[|cs| - 1] == Call(raw.pkg.value, raw.key, raw.pkg)
  {
    BuildStep(raw, Root);
  }

  // ---------------------------------------------------------------------
  // The forest invariant, stated on constructed nodes alone

  /** Below `n`, every child links back to its parent's key, and every
      child's ancestor chain is its parent's chain followed by the child's
      own package index, if it has one. */
  ghost predicate Linked(n: Node)
    decreases n
  {
    n.TreeNode? ==>
      forall i :: 0 <= i < |n.children| ==>
        && (n.children[i].TreeNode? ==>
              && n.children[i].parent == ParentNode(n.key)
              && n.children[i].ancestors == n.ancestors + ToSeq(n.children[i].packageIndex))
        && Linked(n.children[i])
  }

  /** A well-formed forest root: no parent, an empty ancestor chain, and the
      invariant holds everywhere below. */
  ghost predicate WellFormedRoot(n: Node)
  {
    (n.TreeNode? ==> n.parent == NoParent && n.ancestors == []) && Linked(n)
  }

  /** The chain a record built in `ctx` receives. */
  function ChainIn(ctx: Context, pkg: Option<int>): seq<int>
  {
    match ctx
    case Root => []
    case Child(_, chain) => chain + ToSeq(pkg)
  }

  /** Construction establishes the forest invariant: a root's chain is empty
      (its own package index is never recorded), a non-root node's chain is
      its parent's chain plus its own package index, and every child links
      to the node that built it. */
  lemma {:induction false} BuildLinked(raw: RawNode, ctx: Context)
    ensures Linked(Build(raw, ctx).node)
    ensures raw.Raw? ==> Build(raw, ctx).node.ancestors == ChainIn(ctx, raw.pkg)
    ensures raw.Raw? && ctx.Child? ==> Build(raw, ctx).node.parent == ParentNode(ctx.parentKey)
    ensures raw.Raw? && ctx.Root? ==> Build(raw, ctx).node.parent == NoParent
    decreases raw
  {
    if raw.Raw? {
      var n := Build(raw, ctx).node;
      var childCtx := Child(raw.key, n.ancestors);
      assert n.children == BuildChildren(raw.children, childCtx).nodes;
      forall i | 0 <= i < |n.children|
        ensures n.children[i].TreeNode? ==>
          && n.children[i].parent == ParentNode(n.key)
          && n.children[i].ancestors == n.ancestors + ToSeq(n.children[i].packageIndex)
        ensures Linked(n.children[i])
      {
        BuildLinked(raw.children[i], childCtx);
      }
    }
  }

  /** Every root the forest loop builds is well formed. */
  lemma ForestWellFormed(roots: seq<RawNode>)
    ensures forall i :: 0 <= i < |roots| ==> WellFormedRoot(BuildChildren(roots, Root).nodes[i])
  {
    forall i | 0 <= i < |roots|
      ensures WellFormedRoot(BuildChildren(roots, Root).nodes[i])
    {
      BuildLinked(roots[i], Root);
    }
  }

  /** Per-node fields: `key` and `packageIndex` are copied only from integer
      raw values, the title only when non-empty, and each exclusion list
      holds what the JavaScript `Set` of the snake_case list holds when that
      list is present, otherwise of the camelCase list: its distinct
      elements in order of first occurrence. */
  lemma NodeFields(raw: RawNode, ctx: Context)
    requires raw.Raw?
    ensures var n := Build(raw, ctx).node;
      && n.key == raw.key && n.packageIndex == raw.pkg
      && (raw.title == "" ==> n.title == None)
      && (raw.title != "" ==> n.title == Some(raw.title))
      && JsSet.NoDups(n.pathExcludes) && JsSet.NoDups(n.scopeExcludes)
      && (raw.pathExcludes.snake.Some? ==> JsSet.IsSetOf(n.pathExcludes, raw.pathExcludes.snake.value))
      && (raw.pathExcludes.snake.None? && raw.pathExcludes.camel.Some? ==>
            JsSet.IsSetOf(n.pathExcludes, raw.pathExcludes.camel.value))
      && (raw.pathExcludes.snake.None? && raw.pathExcludes.camel.None? ==> n.pathExcludes == [])
      && (raw.scopeExcludes.snake.Some? ==> JsSet.IsSetOf(n.scopeExcludes, raw.scopeExcludes.snake.value))
      && (raw.scopeExcludes.snake.None? && raw.scopeExcludes.camel.Some? ==>
            JsSet.IsSetOf(n.scopeExcludes, raw.scopeExcludes.camel.value))
      && (raw.scopeExcludes.snake.None? && raw.scopeExcludes.camel.None? ==> n.scopeExcludes == [])
  {
    var n := Build(raw, ctx).node;
    JsSet.SetOfIsFromSeq(n.pathExcludes, raw.pathExcludes.Resolve().GetOr([]));
    JsSet.SetOfIsFromSeq(n.scopeExcludes, raw.scopeExcludes.Resolve().GetOr([]));
  }

  // ---------------------------------------------------------------------
  // The callback trace, stated on constructed nodes alone

  /** The callback invocation a constructed node is responsible for: its
      package index, its key, and its parent's key, or its own package index
      when it has no parent. */
  function ReportOf(n: Node): seq<Call>
  {
    if n.TreeNode? && n.packageIndex.Some? then
      [Call(n.packageIndex.value, n.key, CallbackParentKey(n))]
    else []
  }

  /** `parent ? parent.key : packageIndex`. */
  function CallbackParentKey(n: Node): Key
    requires n.TreeNode?
  {
    match n.parent
    case NoParent => n.packageIndex
    case ParentNode(k) => k
  }

  /** Post-order: the reports of all children, left to right, then the
      node's own. */
  function Reports(n: Node): seq<Call>
    decreases n
  {
    match n
    case EmptyNode => []
    case TreeNode(_, _, _, _, _, _, children, _) => ReportsAll(children) + ReportOf(n)
  }

  function ReportsAll(ns: seq<Node>): seq<Call>
    decreases ns
  {
    if |ns| == 0 then [] else ReportsAll(ns[..|ns| - 1]) + Reports(ns[|ns| - 1])
  }

  /** The trace construction produces is the post-order enumeration of the
      constructed nodes that carry a package index, each reported with its
      own key and its parent's key (a root with its own package index). */
  lemma {:induction false} BuildReportsPostOrder(raw: RawNode, ctx: Context)
    ensures Build(raw, ctx).calls == Reports(Build(raw, ctx).node)
    decreases raw
  {
    if raw.Raw? {
      var n := Build(raw, ctx).node;
      var kids := BuildChildren(raw.children, Child(raw.key, n.ancestors));
      BuildChildrenReportsPostOrder(raw.children, Child(raw.key, n.ancestors));
      assert Build(raw, ctx).calls == kids.calls + ReportOf(n);
    }
  }

  lemma {:induction false} BuildChildrenReportsPostOrder(raws: seq<RawNode>, ctx: Context)
    ensures BuildChildren(raws, ctx).calls == ReportsAll(BuildChildren(raws, ctx).nodes)
    decreases raws
  {
    if |raws| > 0 {
      var n := |raws| - 1;
      var init := BuildChildren(raws[..n], ctx);
      var b := BuildChildren(raws, ctx);
      BuildChildrenReportsPostOrder(raws[..n], ctx);
      BuildReportsPostOrder(raws[n], ctx);
      assert b.nodes[..n] == init.nodes;
    }
  }

  /** Number of raw records in `raw` whose `pkg` is an integer. */
  function CountPackaged(raw: RawNode): nat
    decreases raw
  {
    match raw
    case Blank => 0
    case Raw(_, pkg, _, _, _, children) => CountPackagedAll(children) + |ToSeq(pkg)|
  }

  function CountPackagedAll(raws: seq<RawNode>): nat
    decreases raws
  {
    if |raws| == 0 then 0 else CountPackagedAll(raws[..|raws| - 1]) + CountPackaged(raws[|raws| - 1])
  }

  /** The callback fires exactly once per raw record with an integer `pkg`. */
  lemma {:induction false} CallbackOncePerPackagedRecord(raw: RawNode, ctx: Context)
    ensures |Build(raw, ctx).calls| == CountPackaged(raw)
    decreases raw
  {
    if raw.Raw? {
      var n := Build(raw, ctx).node;
      CallbackOncePerPackagedRecordAll(raw.children, Child(raw.key, n.ancestors));
    }
  }

  lemma {:induction false} CallbackOncePerPackagedRecordAll(raws: seq<RawNode>, ctx: Context)
    ensures |BuildChildren(raws, ctx).calls| == CountPackagedAll(raws)
    decreases raws
  {
    if |raws| > 0 {
      CallbackOncePerPackagedRecordAll(raws[..|raws| - 1], ctx);
      CallbackOncePerPackagedRecord(raws[|raws| - 1], ctx);
    }
  }

  // ---------------------------------------------------------------------
  // Nodes of a constructed tree

  /** The constructed nodes of a tree, in post-order (empty nodes omitted). */
  function Nodes(n: Node): seq<Node>
    decreases n
  {
    match n
    case EmptyNode => []
    case TreeNode(_, _, _, _, _, _, children, _) => NodesAll(children) + [n]
  }

  function NodesAll(ns: seq<Node>): seq<Node>
    decreases ns
  {
    if |ns| == 0 then [] else NodesAll(ns[..|ns| - 1]) + Nodes(ns[|ns| - 1])
  }

  /** The number of nodes in `ns` that carry package index `p`. */
  function CountWithPackage(ns: seq<Node>, p: int): nat
  {
    if |ns| == 0 then 0
    else
      var m := ns[|ns| - 1];
      CountWithPackage(ns[..|ns| - 1], p) + (if m.TreeNode? && m.packageIndex == Some(p) then 1 else 0)
  }

  lemma {:induction false} CountWithPackageAppend(a: seq<Node>, b: seq<Node>, p: int)
    ensures CountWithPackage(a + b, p) == CountWithPackage(a, p) + CountWithPackage(b, p)
  {
    if |b| == 0 {
      assert a + b == a;
    } else {
      var m := |b| - 1;
      assert (a + b)[..|a + b| - 1] == a + b[..m];
      assert (a + b)[|a + b| - 1] == b[m];
      CountWithPackageAppend(a, b[..m], p);
    }
  }

  /** Every node of a tree that carries a package index is reported, and
      every report comes from such a node. */
  lemma {:induction false} ReportsAreNodeReports(n: Node)
    ensures forall m :: m in Nodes(n) ==> forall c :: c in ReportOf(m) ==> c in Reports(n)
    ensures forall c :: c in Reports(n) ==> exists m :: m in Nodes(n) && c in ReportOf(m)
    decreases n
  {
    if n.TreeNode? {
      ReportsAreNodeReportsAll(n.children);
    }
  }

  lemma {:induction false} ReportsAreNodeReportsAll(ns: seq<Node>)
    ensures forall m :: m in NodesAll(ns) ==> forall c :: c in ReportOf(m) ==> c in ReportsAll(ns)
    ensures forall c :: c in ReportsAll(ns) ==> exists m :: m in NodesAll(ns) && c in ReportOf(m)
    decreases ns
  {
    if |ns| > 0 {
      ReportsAreNodeReportsAll(ns[..|ns| - 1]);
      ReportsAreNodeReports(ns[|ns| - 1]);
    }
  }
}
