/** Start-up adds the records of the file one by one (main.c:114-119). A rewrite leaves them
    in increasing key order: the worst order for the tree as written, harmless for the
    repaired one. */
module Replay {
  import opened Options
  import opened TreeModel
  import PlainTree
  import WrittenTree
  import RepairedTree

  function Adds<K, T>(s: seq<Entry<K, T>>): seq<Operation<K, T>> {
    if s == [] then [] else Adds(s[..|s| - 1]) + [AddEntry(s[|s| - 1])]
  }

  /** No node has a left child. */
  predicate RightSpine<K, T>(t: Tree<K, T>) {
    t.Node? ==> t.left.Leaf? && RightSpine(t.right)
  }

  lemma {:induction false} ExtendSpine<K(!new), T>(cmp: (K, K) -> int, t: Tree<K, T>, e: Entry<K, T>)
    requires TotalOrder(cmp) && RightSpine(t)
    requires forall d | d in Inorder(t) :: cmp(d.key, e.key) < 0
    ensures RightSpine(PlainTree.Add(cmp, t, e))
    ensures Inorder(PlainTree.Add(cmp, t, e)) == Inorder(t) + [e]
  {
    if t.Node? {
      assert Inorder(t) == [t.data] + Inorder(t.right);
      assert cmp(t.data.key, e.key) < 0;
      ExtendSpine(cmp, t.right, e);
    }
  }

  lemma {:induction false} SpineDepth<K, T>(t: Tree<K, T>)
    requires RightSpine(t)
    ensures Depth(t) == |Inorder(t)|
  {
    if t.Node? {
      SpineDepth(t.right);
    }
  }

  lemma LastIsAbove<K, T>(cmp: (K, K) -> int, s: seq<Entry<K, T>>)
    requires Increasing(cmp, s) && s != []
    ensures Increasing(cmp, s[..|s| - 1])
    ensures forall d | d in s[..|s| - 1] :: cmp(d.key, s[|s| - 1].key) < 0
  {
  }

  lemma PlainRunStep<K, T>(cmp: (K, K) -> int, s: seq<Entry<K, T>>)
    requires s != []
    ensures WrittenTree.PlainRun(cmp, Adds(s)) ==
            PlainTree.Add(cmp, WrittenTree.PlainRun(cmp, Adds(s[..|s| - 1])), s[|s| - 1])
  {
  }

  lemma {:induction false} PlainReplaySpine<K(!new), T>(cmp: (K, K) -> int, s: seq<Entry<K, T>>)
    requires TotalOrder(cmp) && Increasing(cmp, s)
    ensures var t := WrittenTree.PlainRun(cmp, Adds(s));
            RightSpine(t) && Inorder(t) == s
  {
    if s != [] {
      var init, e := s[..|s| - 1], s[|s| - 1];
      LastIsAbove(cmp, s);
      PlainReplaySpine(cmp, init);
      PlainRunStep(cmp, s);
      ExtendSpine(cmp, WrittenTree.PlainRun(cmp, Adds(init)), e);
      assert init + [e] == s;
    }
  }

  lemma {:induction false} EraseKeepsSpine<K, T>(t: Tree<K, T>)
    ensures RightSpine(PlainTree.Erase(t)) <==> RightSpine(t)
  {
    if t.Node? {
      EraseKeepsSpine(t.right);
    }
  }

  /** Replaying a freshly rewritten file into the tree as written gives a right spine as deep
      as there are users. */
  lemma WrittenReplayDegenerates<K(!new), T>(cmp: (K, K) -> int, s: seq<Entry<K, T>>)
    requires TotalOrder(cmp) && Increasing(cmp, s)
    ensures var o := WrittenTree.Run(cmp, Adds(s));
            o.Some? && RightSpine(o.value) && Inorder(o.value) == s && Depth(o.value) == |s|
  {
    WrittenTree.EveryRunIsPlain(cmp, Adds(s));
    PlainReplaySpine(cmp, s);
    var t := WrittenTree.Run(cmp, Adds(s)).value;
    EraseKeepsSpine(t);
    PlainTree.EraseKeepsMeaning(cmp, t);
    SpineDepth(t);
  }

  lemma {:induction false} AtMostOneKeyEach<K, T>(s: seq<Entry<K, T>>)
    ensures |MapRun(Adds(s))| <= |s|
  {
    if s != [] {
      AtMostOneKeyEach(s[..|s| - 1]);
      assert Adds(s)[..|Adds(s)| - 1] == Adds(s[..|s| - 1]);
    }
  }

  /** The repaired tree stays logarithmic whatever the order of the file. */
  lemma RepairedReplayShallow<K(!new), T>(cmp: (K, K) -> int, s: seq<Entry<K, T>>)
    requires TotalOrder(cmp)
    ensures var o := RepairedTree.Run(cmp, Adds(s));
            && o.Some? && Contents(o.value) == MapRun(Adds(s))
            && RepairedTree.Pow2(Depth(o.value) / 2) <= |s| + 1
  {
    RepairedTree.EveryRunBalanced(cmp, Adds(s));
    AtMostOneKeyEach(s);
    SizeCountsKeys(cmp, RepairedTree.Run(cmp, Adds(s)).value);
    RepairedTree.BalancedIsShallow(RepairedTree.Run(cmp, Adds(s)).value);
  }
}
