/** A three-level chain root(key 0) → (key 1, package 1) → (key 2,
    package 0): the callback trace its construction produces, the reverse
    index that trace accumulates, and the grandchild's ancestor chain. */
module ChainExample {
  import Fields
  import opened Wrappers
  import opened WebAppTreeNode
  import opened ReverseIndex

  /** The records root(key 0) → (key 1, package 1) → (key 2, package 0). */
  function ChainLeaf(): RawNode
  {
    Raw(Some(2), Some(0), "", Fields.Missing(), Fields.Missing(), [])
  }

  function ChainMiddle(): RawNode
  {
    Raw(Some(1), Some(1), "", Fields.Missing(), Fields.Missing(), [ChainLeaf()])
  }

  function ChainRoot(): RawNode
  {
    Raw(Some(0), None, "", Fields.Missing(), Fields.Missing(), [ChainMiddle()])
  }

  lemma ChainLeafBuilt()
    ensures Build(ChainLeaf(), Child(Some(1), [1])).calls == [Call(0, Some(2), Some(1))]
    ensures Build(ChainLeaf(), Child(Some(1), [1])).node.ancestors == [1, 0]
  {
    BuildStep(ChainLeaf(), Child(Some(1), [1]));
    assert ToSeq(Some(0)) == [0];
  }

  lemma ChainMiddleBuilt()
    ensures Build(ChainMiddle(), Child(Some(0), [])).calls == [Call(0, Some(2), Some(1)), Call(1, Some(1), Some(0))]
    ensures Build(ChainMiddle(), Child(Some(0), [])).node.children[0].ancestors == [1, 0]
  {
    var ctx := Child(Some(1), [1]);
    assert ChainIn(Child(Some(0), []), Some(1)) == [1] by {
      assert ToSeq(Some(1)) == [1];
    }
    BuildStep(ChainMiddle(), Child(Some(0), []));
    var kids := BuildChildren([ChainLeaf()], ctx);
    assert kids.calls == Build(ChainLeaf(), ctx).calls && kids.nodes == [Build(ChainLeaf(), ctx).node] by {
      assert [ChainLeaf()][..0] == [];
    }
    ChainLeafBuilt();
  }

  /** The callback trace of the chain: the grandchild under key 1 first,
      then the child under key 0; the root carries no package. */
  lemma ThreeLevelTrace()
    ensures Build(ChainRoot(), Root).calls == [Call(0, Some(2), Some(1)), Call(1, Some(1), Some(0))]
    ensures Build(ChainRoot(), Root).node.children[0].children[0].ancestors == [1, 0]
  {
    assert [ChainMiddle()][..0] == [];
    ChainMiddleBuilt();
    assert BuildChildren([ChainMiddle()], Child(Some(0), [])).calls == Build(ChainMiddle(), Child(Some(0), [])).calls;
  }

  /** The index the chain's trace accumulates. */
  lemma ChainIndex()
    ensures Apply(map[], [Call(0, Some(2), Some(1)), Call(1, Some(1), Some(0))])
      == map[1 := Entry([Some(1)], [Some(0)]), 0 := Entry([Some(2)], [Some(1)])]
  {
    var one := [Call(0, Some(2), Some(1))];
    var calls := one + [Call(1, Some(1), Some(0))];
    assert calls[..1] == one && one[..0] == [];
    var first := Apply(map[], one);
    assert first == map[0 := Entry([Some(2)], [Some(1)])];
    assert Apply(map[], calls) == Record(first, calls[1]);
  }

  /** For the chain, package 1 is found at key 1 under key 0, package 0 at
      key 2 under key 1, and the grandchild's chain holds its parent's
      package followed by its own. */
  lemma ThreeLevelChain()
    ensures Apply(map[], Build(ChainRoot(), Root).calls)
      == map[1 := Entry([Some(1)], [Some(0)]), 0 := Entry([Some(2)], [Some(1)])]
    ensures Build(ChainRoot(), Root).node.children[0].children[0].ancestors == [1, 0]
  {
    ThreeLevelTrace();
    ChainIndex();
  }
}
