/** avl_tree.c as it is written. None is a NULL dereference. */
module WrittenTree {
  import opened Options
  import opened TreeModel
  import PlainTree

  /** The height expression of avl_tree.c:120, as C parses it: the sum is the condition. */
  function StoredHeight<K, T>(l: Tree<K, T>, r: Tree<K, T>): int {
    if 1 + (if Height(l) > Height(r) then 1 else 0) != 0 then Height(l) else Height(r)
  }

  function Build<K, T>(l: Tree<K, T>, d: Entry<K, T>, r: Tree<K, T>): Tree<K, T> {
    Node(l, d, StoredHeight(l, r), r)
  }

  function RotateRight<K, T>(t: Tree<K, T>): Option<Tree<K, T>>
    requires t.Node?
  {
    if t.left.Leaf? || t.left.right.Leaf? then None
    else
      var save := t.left.right;
      Some(Node(t.left.left, t.left.data, StoredHeight(save.left, save.right), Build(save, t.data, t.right)))
  }

  function RotateLeft<K, T>(t: Tree<K, T>): Option<Tree<K, T>>
    requires t.Node?
  {
    if t.right.Leaf? || t.right.left.Leaf? then None
    else
      var save := t.right.left;
      Some(Node(Build(t.left, t.data, save), t.right.data, StoredHeight(save.left, save.right), t.right.right))
  }

  /** avl_tree.c:127-128 rotates the node instead of its child. Unfolded from the pointers,
      both links of the result lead to the old root and the old left subtree is gone. */
  function RotateNodeLeftThenRight<K, T>(t: Tree<K, T>): Option<Tree<K, T>>
    requires t.Node?
  {
    if t.right.Leaf? || t.right.left.Leaf? || t.right.right.Leaf? then None
    else
      var save, far := t.right.left, t.right.right;
      var node := Build(far, t.data, save);
      Some(Node(node, t.right.data, StoredHeight(far.left, far.right), node))
  }

  /** avl_tree.c:134-135, the mirror image. */
  function RotateNodeRightThenLeft<K, T>(t: Tree<K, T>): Option<Tree<K, T>>
    requires t.Node?
  {
    if t.left.Leaf? || t.left.right.Leaf? || t.left.left.Leaf? then None
    else
      var save, far := t.left.right, t.left.left;
      var node := Build(save, t.data, far);
      Some(Node(node, t.left.data, StoredHeight(far.left, far.right), node))
  }

  /** avl_tree.c:120-138, once the recursive call has returned. */
  function FixAfterAdd<K, T>(cmp: (K, K) -> int, t: Tree<K, T>, e: Entry<K, T>): Option<Tree<K, T>>
    requires t.Node?
  {
    if Balance(t) > 1 then
      if t.left.Leaf? then None
      else if cmp(e.key, t.left.data.key) > 0 then RotateNodeLeftThenRight(t)
      else RotateRight(t)
    else if Balance(t) < -1 then
      if t.right.Leaf? then None
      else if cmp(e.key, t.right.data.key) < 0 then RotateNodeRightThenLeft(t)
      else RotateLeft(t)
    else Some(t)
  }

  /** private_avl_add */
  function Add<K, T>(cmp: (K, K) -> int, t: Tree<K, T>, e: Entry<K, T>): Option<Tree<K, T>> {
    if t.Leaf? then Some(Node(Leaf, e, 1, Leaf))
    else if cmp(e.key, t.data.key) < 0 then
      match Add(cmp, t.left, e)
      case None => None
      case Some(l) => FixAfterAdd(cmp, Build(l, t.data, t.right), e)
    else if cmp(e.key, t.data.key) > 0 then
      match Add(cmp, t.right, e)
      case None => None
      case Some(r) => FixAfterAdd(cmp, Build(t.left, t.data, r), e)
    else Some(t)
  }

  /** Line 127 or 134 is next: the rotation that leaves one node under two links. */
  predicate TurnsNode<K, T>(cmp: (K, K) -> int, t: Tree<K, T>, e: Entry<K, T>)
    requires t.Node?
  {
    || (Balance(t) > 1 && t.left.Node? && cmp(e.key, t.left.data.key) > 0)
    || (Balance(t) < -1 && t.right.Node? && cmp(e.key, t.right.data.key) < 0)
  }

  /** The insertion comes to such a rotation at some node on its way back. */
  predicate Tangles<K, T>(cmp: (K, K) -> int, t: Tree<K, T>, e: Entry<K, T>) {
    if t.Leaf? then false
    else if cmp(e.key, t.data.key) < 0 then
      || Tangles(cmp, t.left, e)
      || match Add(cmp, t.left, e)
         case None => false
         case Some(l) => TurnsNode(cmp, Build(l, t.data, t.right), e)
    else if cmp(e.key, t.data.key) > 0 then
      || Tangles(cmp, t.right, e)
      || match Add(cmp, t.right, e)
         case None => false
         case Some(r) => TurnsNode(cmp, Build(t.left, t.data, r), e)
    else false
  }

  /** avl_tree.c:170-182 */
  function FixAfterRemove<K, T>(t: Tree<K, T>): Option<Tree<K, T>>
    requires t.Node?
  {
    if Balance(t) > 1 then
      if t.left.Node? && Balance(t.left) < 0 then
        match RotateLeft(t.left)
        case None => None
        case Some(l) => RotateRight(t.(left := l))
      else RotateRight(t)
    else if Balance(t) < -1 then
      if t.right.Node? && Balance(t.right) > 0 then
        match RotateRight(t.right)
        case None => None
        case Some(r) => RotateLeft(t.(right := r))
      else RotateLeft(t)
    else Some(t)
  }

  /** private_avl_remove: a node with two children keeps its place. */
  function Remove<K, T>(cmp: (K, K) -> int, t: Tree<K, T>, k: K): Option<Tree<K, T>> {
    if t.Leaf? then Some(Leaf)
    else if cmp(k, t.data.key) < 0 then
      match Remove(cmp, t.left, k)
      case None => None
      case Some(l) => FixAfterRemove(Build(l, t.data, t.right))
    else if cmp(k, t.data.key) > 0 then
      match Remove(cmp, t.right, k)
      case None => None
      case Some(r) => FixAfterRemove(Build(t.left, t.data, r))
    else if t.left.Leaf? || t.right.Leaf? then
      var temp := if t.left.Node? then t.left else t.right;
      if temp.Leaf? then Some(Leaf)
      else FixAfterRemove(Build(temp.left, temp.data, temp.right))
    else FixAfterRemove(Build(t.left, t.data, t.right))
  }

  /** Every stored height is 0 or 1. */
  predicate BitHeights<K, T>(t: Tree<K, T>) {
    t.Node? ==> 0 <= t.height <= 1 && BitHeights(t.left) && BitHeights(t.right)
  }

  /** While heights are bits, adding never rotates and is the plain search tree's. */
  lemma {:induction false} AddIsPlain<K, T>(cmp: (K, K) -> int, t: Tree<K, T>, e: Entry<K, T>)
    requires BitHeights(t)
    ensures Add(cmp, t, e).Some? && !Tangles(cmp, t, e) && BitHeights(Add(cmp, t, e).value)
    ensures PlainTree.Erase(Add(cmp, t, e).value) == PlainTree.Add(cmp, PlainTree.Erase(t), e)
  {
    if t.Node? {
      if cmp(e.key, t.data.key) < 0 {
        AddIsPlain(cmp, t.left, e);
      } else if cmp(e.key, t.data.key) > 0 {
        AddIsPlain(cmp, t.right, e);
      }
    }
  }

  /** At heights 0 and 1 the height expression is the left child's height, and nothing rotates. */
  lemma NodeKeepsStill<K, T>(cmp: (K, K) -> int, l: Tree<K, T>, d: Entry<K, T>, r: Tree<K, T>, e: Entry<K, T>)
    requires BitHeights(l) && BitHeights(r)
    ensures var u := Node(l, d, Height(l), r);
            FixAfterAdd(cmp, Build(l, d, r), e) == Some(u) && -1 <= Balance(u) <= 1
  {
  }

  /** What insertion amounts to at one node while heights are bits: the child is replaced,
      the height reassigned, and the balance asks for no rotation. */
  lemma AddKeepsStill<K, T>(cmp: (K, K) -> int, t: Tree<K, T>, e: Entry<K, T>)
    requires BitHeights(t) && t.Node?
    ensures cmp(e.key, t.data.key) < 0 && Add(cmp, t.left, e).Some? ==>
              var l := Add(cmp, t.left, e).value;
              var u := Node(l, t.data, Height(l), t.right);
              Add(cmp, t, e) == Some(u) && -1 <= Balance(u) <= 1
    ensures cmp(e.key, t.data.key) > 0 && Add(cmp, t.right, e).Some? ==>
              var u := Node(t.left, t.data, Height(t.left), Add(cmp, t.right, e).value);
              Add(cmp, t, e) == Some(u) && -1 <= Balance(u) <= 1
    ensures cmp(e.key, t.data.key) == 0 ==> Add(cmp, t, e) == Some(t)
  {
    if cmp(e.key, t.data.key) < 0 {
      AddIsPlain(cmp, t.left, e);
      NodeKeepsStill(cmp, Add(cmp, t.left, e).value, t.data, t.right, e);
    } else if cmp(e.key, t.data.key) > 0 {
      AddIsPlain(cmp, t.right, e);
      NodeKeepsStill(cmp, t.left, t.data, Add(cmp, t.right, e).value, e);
    }
  }

  /** The same for removal. */
  lemma {:induction false} RemoveIsPlain<K, T>(cmp: (K, K) -> int, t: Tree<K, T>, k: K)
    requires BitHeights(t)
    ensures Remove(cmp, t, k).Some? && BitHeights(Remove(cmp, t, k).value)
    ensures PlainTree.Erase(Remove(cmp, t, k).value) == PlainTree.Remove(cmp, PlainTree.Erase(t), k)
  {
    if t.Node? {
      if cmp(k, t.data.key) < 0 {
        RemoveIsPlain(cmp, t.left, k);
      } else if cmp(k, t.data.key) > 0 {
        RemoveIsPlain(cmp, t.right, k);
      } else {
        var temp := if t.left.Node? then t.left else t.right;
        assert BitHeights(temp) && (temp.Node? ==> BitHeights(temp.left) && BitHeights(temp.right));
      }
    }
  }

  lemma RemoveKeepsStill<K, T>(cmp: (K, K) -> int, t: Tree<K, T>, k: K)
    requires BitHeights(t) && t.Node?
    ensures cmp(k, t.data.key) < 0 && Remove(cmp, t.left, k).Some? ==>
              var l := Remove(cmp, t.left, k).value;
              var u := Node(l, t.data, Height(l), t.right);
              Remove(cmp, t, k) == Some(u) && -1 <= Balance(u) <= 1
    ensures cmp(k, t.data.key) > 0 && Remove(cmp, t.right, k).Some? ==>
              var u := Node(t.left, t.data, Height(t.left), Remove(cmp, t.right, k).value);
              Remove(cmp, t, k) == Some(u) && -1 <= Balance(u) <= 1
    ensures cmp(k, t.data.key) == 0 ==>
              var temp := if t.left.Leaf? then t.right else if t.right.Leaf? then t.left else t;
              if temp.Leaf? then Remove(cmp, t, k) == Some(Leaf)
              else
                var u := Node(temp.left, temp.data, Height(temp.left), temp.right);
                Remove(cmp, t, k) == Some(u) && -1 <= Balance(u) <= 1
  {
    RemoveIsPlain(cmp, t.left, k);
    RemoveIsPlain(cmp, t.right, k);
    var temp := if t.left.Leaf? then t.right else if t.right.Leaf? then t.left else t;
    assert temp.Node? ==> BitHeights(temp.left) && BitHeights(temp.right);
  }

  /** avl_add and avl_remove: the search comes first and decides the code. */
  function Step<K, T>(cmp: (K, K) -> int, t: Tree<K, T>, op: Operation<K, T>): (Option<Tree<K, T>>, Code) {
    match op
    case AddEntry(e) =>
      if Find(cmp, t, e.key).Node? then (Some(t), DuplicatedKey) else (Add(cmp, t, e), Ok)
    case RemoveKey(k) =>
      if Find(cmp, t, k).Leaf? then (Some(t), KeyNotFound) else (Remove(cmp, t, k), Ok)
  }

  /** The tree after a sequence of calls, from new_avl_tree on. */
  function Run<K, T>(cmp: (K, K) -> int, ops: seq<Operation<K, T>>): Option<Tree<K, T>> {
    if ops == [] then Some(Leaf)
    else
      match Run(cmp, ops[..|ops| - 1])
      case None => None
      case Some(t) => Step(cmp, t, ops[|ops| - 1]).0
  }

  function PlainStep<K, T>(cmp: (K, K) -> int, t: Tree<K, T>, op: Operation<K, T>): Tree<K, T> {
    match op
    case AddEntry(e) => PlainTree.Add(cmp, t, e)
    case RemoveKey(k) => PlainTree.Remove(cmp, t, k)
  }

  function PlainRun<K, T>(cmp: (K, K) -> int, ops: seq<Operation<K, T>>): Tree<K, T> {
    if ops == [] then Leaf else PlainStep(cmp, PlainRun(cmp, ops[..|ops| - 1]), ops[|ops| - 1])
  }

  lemma AddLaw<K(!new), T>(cmp: (K, K) -> int, t: Tree<K, T>, e: Entry<K, T>)
    requires TotalOrder(cmp) && Ordered(cmp, t) && BitHeights(t)
    ensures var o := Add(cmp, t, e);
            && o.Some? && BitHeights(o.value) && Ordered(cmp, o.value)
            && Contents(o.value) == if e.key in Contents(t) then Contents(t) else Contents(t)[e.key := e.payload]
  {
    AddIsPlain(cmp, t, e);
    PlainTree.EraseKeepsMeaning(cmp, t);
    PlainTree.EraseKeepsMeaning(cmp, Add(cmp, t, e).value);
    PlainTree.AddInserts(cmp, PlainTree.Erase(t), e);
  }

  lemma RemoveLaw<K(!new), T>(cmp: (K, K) -> int, t: Tree<K, T>, k: K)
    requires TotalOrder(cmp) && Ordered(cmp, t) && BitHeights(t)
    ensures var o := Remove(cmp, t, k);
            && o.Some? && BitHeights(o.value) && Ordered(cmp, o.value)
            && Contents(o.value) == if PlainTree.HasSpareChild(Find(cmp, t, k)) then Contents(t) - {k} else Contents(t)
  {
    RemoveIsPlain(cmp, t, k);
    PlainTree.EraseKeepsFind(cmp, t, k);
    PlainTree.EraseKeepsMeaning(cmp, t);
    PlainTree.EraseKeepsMeaning(cmp, Remove(cmp, t, k).value);
    PlainTree.RemoveLaw(cmp, PlainTree.Erase(t), k);
  }

  lemma StepIsPlain<K, T>(cmp: (K, K) -> int, t: Tree<K, T>, op: Operation<K, T>)
    requires BitHeights(t)
    ensures Step(cmp, t, op).0.Some?
    ensures PlainTree.Erase(Step(cmp, t, op).0.value) == PlainStep(cmp, PlainTree.Erase(t), op)
  {
    match op
    case AddEntry(e) =>
      AddIsPlain(cmp, t, e);
      PlainTree.KnownOrMissingKey(cmp, t, e.key);
      assert e == Entry(e.key, e.payload);
    case RemoveKey(k) =>
      RemoveIsPlain(cmp, t, k);
      PlainTree.KnownOrMissingKey(cmp, t, k);
  }

  /** What one call does to the map, on every tree a run can build. */
  lemma StepLaw<K(!new), T>(cmp: (K, K) -> int, t: Tree<K, T>, op: Operation<K, T>)
    requires TotalOrder(cmp) && Ordered(cmp, t) && BitHeights(t)
    ensures var (o, code) := Step(cmp, t, op);
            && o.Some? && BitHeights(o.value) && Ordered(cmp, o.value)
            && code == MapStep(Contents(t), op).1
            && Contents(o.value) ==
               if op.RemoveKey? && !PlainTree.HasSpareChild(Find(cmp, t, op.key)) then Contents(t)
               else MapStep(Contents(t), op).0
  {
    match op
    case AddEntry(e) =>
      LookupReadsContents(cmp, t, e.key);
      AddLaw(cmp, t, e);
    case RemoveKey(k) =>
      LookupReadsContents(cmp, t, k);
      RemoveLaw(cmp, t, k);
  }

  /** A tree avl_add and avl_remove can work on. */
  ghost predicate Sound<K, T>(cmp: (K, K) -> int, t: Tree<K, T>) {
    Ordered(cmp, t) && BitHeights(t)
  }

  lemma StepStaysSound<K(!new), T>(cmp: (K, K) -> int, t: Tree<K, T>, op: Operation<K, T>, u: Tree<K, T>)
    requires TotalOrder(cmp) && Sound(cmp, t) && Step(cmp, t, op).0 == Some(u)
    ensures Sound(cmp, u)
  {
    StepLaw(cmp, t, op);
  }

  // ---- The stored heights ----

  /** Every node stores its left child's height, but for leaves, which may store the 1 they were
      made with. */
  predicate LeftHeights<K, T>(t: Tree<K, T>) {
    t.Node? ==>
      && LeftHeights(t.left)
      && LeftHeights(t.right)
      && (t.height == Height(t.left) || (t.height == 1 && t.left.Leaf? && t.right.Leaf?))
  }

  lemma {:induction false} AddKeepsLeftHeights<K, T>(cmp: (K, K) -> int, t: Tree<K, T>, e: Entry<K, T>)
    requires BitHeights(t) && LeftHeights(t)
    ensures Add(cmp, t, e).Some? && LeftHeights(Add(cmp, t, e).value)
  {
    AddIsPlain(cmp, t, e);
    if t.Node? {
      AddKeepsStill(cmp, t, e);
      AddKeepsLeftHeights(cmp, t.left, e);
      AddKeepsLeftHeights(cmp, t.right, e);
    }
  }

  lemma {:induction false} RemoveKeepsLeftHeights<K, T>(cmp: (K, K) -> int, t: Tree<K, T>, k: K)
    requires BitHeights(t) && LeftHeights(t)
    ensures Remove(cmp, t, k).Some? && LeftHeights(Remove(cmp, t, k).value)
  {
    RemoveIsPlain(cmp, t, k);
    if t.Node? {
      RemoveKeepsStill(cmp, t, k);
      RemoveKeepsLeftHeights(cmp, t.left, k);
      RemoveKeepsLeftHeights(cmp, t.right, k);
    }
  }

  /** What the height expression comes to, over every run. */
  lemma {:induction false} EveryRunStoresLeftHeights<K(!new), T>(cmp: (K, K) -> int, ops: seq<Operation<K, T>>)
    requires TotalOrder(cmp)
    ensures Run(cmp, ops).Some? && LeftHeights(Run(cmp, ops).value)
  {
    EveryRunIsPlain(cmp, ops);
    if ops != [] {
      var init := ops[..|ops| - 1];
      EveryRunIsPlain(cmp, init);
      EveryRunStoresLeftHeights(cmp, init);
      match ops[|ops| - 1]
      case AddEntry(e) => AddKeepsLeftHeights(cmp, Run(cmp, init).value, e);
      case RemoveKey(k) => RemoveKeepsLeftHeights(cmp, Run(cmp, init).value, k);
    }
  }

  /** The rotations as written keep the traversal. The node stores its left child's height, and
      the child that of `save`'s left child. */
  lemma RotationsKeepOrder<K, T>(t: Tree<K, T>)
    requires t.Node?
    ensures RotateRight(t).Some? <==> t.left.Node? && t.left.right.Node?
    ensures RotateRight(t).Some? ==>
              var u := RotateRight(t).value;
              && Inorder(u) == Inorder(t) && u.right.Node?
              && u.height == Height(t.left.right.left) && u.right.height == Height(t.left.right)
    ensures RotateLeft(t).Some? <==> t.right.Node? && t.right.left.Node?
    ensures RotateLeft(t).Some? ==>
              var u := RotateLeft(t).value;
              && Inorder(u) == Inorder(t) && u.left.Node?
              && u.height == Height(t.right.left.left) && u.left.height == Height(t.left)
  {
  }

  /** What lines 127-128 and 134-135 would leave: the node under both links of its child, and the
      subtree on the heavy side lost. */
  lemma TurningTheNodeTangles<K, T>(t: Tree<K, T>)
    requires t.Node?
    ensures RotateNodeLeftThenRight(t).Some? ==>
              var u := RotateNodeLeftThenRight(t).value;
              && u.left == u.right && u.data == t.right.data
              && Inorder(u.left) == Inorder(t.right.right) + [t.data] + Inorder(t.right.left)
    ensures RotateNodeRightThenLeft(t).Some? ==>
              var u := RotateNodeRightThenLeft(t).value;
              && u.left == u.right && u.data == t.left.data
              && Inorder(u.left) == Inorder(t.left.right) + [t.data] + Inorder(t.left.left)
  {
  }

  // ---- The size field ----

  /** The call deletes a node: the key it is to remove is found at a node with at most one
      child. */
  predicate Deletes<K, T>(cmp: (K, K) -> int, t: Tree<K, T>, op: Operation<K, T>) {
    op.RemoveKey? && PlainTree.HasSpareChild(Find(cmp, t, op.key))
  }

  /** The size after a call: an addition counts, and nothing is ever taken off. */
  function NextSize<K, T>(size: nat, op: Operation<K, T>, code: Code): nat {
    if op.AddEntry? && code == Ok then size + 1 else size
  }

  function SizeAfter<K, T>(cmp: (K, K) -> int, ops: seq<Operation<K, T>>): nat {
    if ops == [] then 0
    else
      var init, op := ops[..|ops| - 1], ops[|ops| - 1];
      match Run(cmp, init)
      case None => SizeAfter(cmp, init)
      case Some(t) => NextSize(SizeAfter(cmp, init), op, Step(cmp, t, op).1)
  }

  /** How many calls so far deleted a node. */
  function Deletions<K, T>(cmp: (K, K) -> int, ops: seq<Operation<K, T>>): nat {
    if ops == [] then 0
    else
      var init, op := ops[..|ops| - 1], ops[|ops| - 1];
      match Run(cmp, init)
      case None => Deletions(cmp, init)
      case Some(t) => Deletions(cmp, init) + if Deletes(cmp, t, op) then 1 else 0
  }

  /** The size counts the nodes of the tree and those deleted so far. */
  predicate Counted<K, T>(t: Tree<K, T>, size: nat, deleted: nat) {
    size == Size(t) + deleted
  }

  lemma MapCounts<K, T>(m: map<K, T>, op: Operation<K, T>, deletes: bool, n: map<K, T>)
    requires deletes ==> op.RemoveKey? && op.key in m
    requires n == if op.RemoveKey? && !deletes then m else MapStep(m, op).0
    ensures NextSize(|m|, op, MapStep(m, op).1) == |n| + if deletes then 1 else 0
  {
    match op
    case AddEntry(e) => CountWith(m, e.key, e.payload);
    case RemoveKey(k) => CountWithout(m, k);
  }

  lemma StepCountsKeys<K(!new), T>(
    cmp: (K, K) -> int, t: Tree<K, T>, op: Operation<K, T>, u: Tree<K, T>, code: Code)
    requires TotalOrder(cmp) && Sound(cmp, t) && Step(cmp, t, op) == (Some(u), code)
    ensures NextSize(|Contents(t)|, op, code) == |Contents(u)| + if Deletes(cmp, t, op) then 1 else 0
  {
    StepLaw(cmp, t, op);
    if op.RemoveKey? {
      LookupReadsContents(cmp, t, op.key);
    }
    MapCounts(Contents(t), op, Deletes(cmp, t, op), Contents(u));
  }

  lemma StepKeepsCount<K(!new), T>(
    cmp: (K, K) -> int, t: Tree<K, T>, op: Operation<K, T>, u: Tree<K, T>, code: Code, size: nat, deleted: nat)
    requires TotalOrder(cmp) && Sound(cmp, t) && Step(cmp, t, op) == (Some(u), code)
    requires Counted(t, size, deleted)
    ensures Counted(u, NextSize(size, op, code), deleted + if Deletes(cmp, t, op) then 1 else 0)
  {
    StepStaysSound(cmp, t, op, u);
    StepCountsKeys(cmp, t, op, u, code);
    SizeCountsKeys(cmp, t);
    SizeCountsKeys(cmp, u);
  }

  lemma {:induction false} EveryRunIsCounted<K(!new), T>(cmp: (K, K) -> int, ops: seq<Operation<K, T>>)
    requires TotalOrder(cmp)
    ensures var o := Run(cmp, ops); o.Some? && Counted(o.value, SizeAfter(cmp, ops), Deletions(cmp, ops))
  {
    EveryRunIsPlain(cmp, ops);
    if ops != [] {
      var init, op := ops[..|ops| - 1], ops[|ops| - 1];
      EveryRunIsCounted(cmp, init);
      EveryRunIsPlain(cmp, init);
      var t := Run(cmp, init).value;
      var (o, code) := Step(cmp, t, op);
      StepKeepsCount(cmp, t, op, o.value, code, SizeAfter(cmp, init), Deletions(cmp, init));
    }
  }

  /** Over every run the size is too large by exactly the number of nodes deleted, so it is the
      number of keys if and only if no call so far deleted one. */
  lemma SizeLaw<K(!new), T>(cmp: (K, K) -> int, ops: seq<Operation<K, T>>)
    requires TotalOrder(cmp)
    ensures Run(cmp, ops).Some?
    ensures SizeAfter(cmp, ops) == |Contents(Run(cmp, ops).value)| + Deletions(cmp, ops)
    ensures SizeAfter(cmp, ops) == |Contents(Run(cmp, ops).value)| <==> Deletions(cmp, ops) == 0
  {
    EveryRunIsPlain(cmp, ops);
    EveryRunIsCounted(cmp, ops);
    SizeCountsKeys(cmp, Run(cmp, ops).value);
  }

  /** The smallest failure: after one addition and its removal the empty tree has size 1. */
  lemma SizeOutlivesItsKeys()
    ensures var cmp := (a: int, b: int) => a - b;
            var ops := [AddEntry(Entry(1, 'a')), RemoveKey(1)];
            Run(cmp, ops) == Some(Leaf) && SizeAfter(cmp, ops) == 1
  {
    var cmp := (a: int, b: int) => a - b;
    var add, del := AddEntry(Entry(1, 'a')), RemoveKey(1);
    assert [add, del][..1] == [add] && [add][..0] == [];
    assert Run(cmp, [add]) == Some(Node(Leaf, Entry(1, 'a'), 1, Leaf));
  }

  /** avl_add of a key the tree does not hold. */
  lemma AddedNewKey<K(!new), T>(cmp: (K, K) -> int, t: Tree<K, T>, e: Entry<K, T>, u: Tree<K, T>, code: Code)
    requires TotalOrder(cmp) && Sound(cmp, t) && e.key !in Contents(t)
    requires Step(cmp, t, AddEntry(e)) == (Some(u), code)
    ensures code == Ok && Contents(u) == Contents(t)[e.key := e.payload]
  {
    StepLaw(cmp, t, AddEntry(e));
  }

  /** On every reachable tree heights are bits, so no call rotates or dereferences NULL, and
      the tree is step for step a plain search tree. */
  lemma {:induction false} EveryRunIsPlain<K(!new), T>(cmp: (K, K) -> int, ops: seq<Operation<K, T>>)
    requires TotalOrder(cmp)
    ensures var o := Run(cmp, ops);
            o.Some? && BitHeights(o.value) && Ordered(cmp, o.value) && PlainTree.Erase(o.value) == PlainRun(cmp, ops)
  {
    if ops != [] {
      EveryRunIsPlain(cmp, ops[..|ops| - 1]);
      StepLaw(cmp, Run(cmp, ops[..|ops| - 1]).value, ops[|ops| - 1]);
      StepIsPlain(cmp, Run(cmp, ops[..|ops| - 1]).value, ops[|ops| - 1]);
    }
  }

  /** avl_remove deletes a present key if and only if its node has at most one child, though
      it answers AVL_OK either way. */
  lemma RemovalDeletesIff<K(!new), T>(cmp: (K, K) -> int, t: Tree<K, T>, k: K)
    requires TotalOrder(cmp) && Ordered(cmp, t) && BitHeights(t) && k in Contents(t)
    ensures var (o, code) := Step(cmp, t, RemoveKey(k));
            o.Some? && code == Ok && (k !in Contents(o.value) <==> PlainTree.HasSpareChild(Find(cmp, t, k)))
  {
    StepLaw(cmp, t, RemoveKey(k));
  }

  /** The smallest failure: the root of a three-node tree survives its own removal. */
  lemma RemovalCanDoNothing()
    ensures var cmp := (a: int, b: int) => a - b;
            var ops := [AddEntry(Entry(2, 'b')), AddEntry(Entry(1, 'a')), AddEntry(Entry(3, 'c'))];
            var t := Run(cmp, ops);
            && t.Some? && 2 in Contents(t.value)
            && Run(cmp, ops + [RemoveKey(2)]) == t && Step(cmp, t.value, RemoveKey(2)).1 == Ok
  {
    var cmp := (a: int, b: int) => a - b;
    var a, b, c := Entry(1, 'a'), Entry(2, 'b'), Entry(3, 'c');
    var ops := [AddEntry(b), AddEntry(a), AddEntry(c)];
    var del := RemoveKey(2);
    assert ops[..2] == [AddEntry(b), AddEntry(a)] && ops[..2][..1] == [AddEntry(b)] && ops[..2][..1][..0] == [];
    assert (ops + [del])[..3] == ops;
    var one := Node(Leaf, b, 1, Leaf);
    assert Run(cmp, [AddEntry(b)]) == Some(one);
    var left := Node(Leaf, a, 1, Leaf);
    assert Add(cmp, one, a) == Some(Node(left, b, 1, Leaf));
    assert Run(cmp, ops[..2]) == Some(Node(left, b, 1, Leaf));
    var three := Node(left, b, 1, Node(Leaf, c, 1, Leaf));
    assert Run(cmp, ops) == Some(three);
    assert Contents(three)[2] == 'b';
  }

  lemma StepKeepsPayload<K(!new), T>(cmp: (K, K) -> int, t: Tree<K, T>, op: Operation<K, T>, k: K)
    requires TotalOrder(cmp) && Ordered(cmp, t) && BitHeights(t)
    requires op != RemoveKey(k) && Lookup(cmp, t, k).Some?
    ensures Step(cmp, t, op).0.Some? && Lookup(cmp, Step(cmp, t, op).0.value, k) == Lookup(cmp, t, k)
  {
    StepLaw(cmp, t, op);
    LookupReadsContents(cmp, t, k);
    LookupReadsContents(cmp, Step(cmp, t, op).0.value, k);
  }

  lemma LastKeepsPayload<K(!new), T>(cmp: (K, K) -> int, ops: seq<Operation<K, T>>, op: Operation<K, T>, k: K)
    requires TotalOrder(cmp) && op != RemoveKey(k)
    requires Run(cmp, ops).Some? && Lookup(cmp, Run(cmp, ops).value, k).Some?
    ensures Run(cmp, ops + [op]).Some?
    ensures Lookup(cmp, Run(cmp, ops + [op]).value, k) == Lookup(cmp, Run(cmp, ops).value, k)
  {
    assert (ops + [op])[..|ops|] == ops;
    EveryRunIsPlain(cmp, ops);
    StepKeepsPayload(cmp, Run(cmp, ops).value, op, k);
  }

  /** A key that stays keeps its payload pointer, however its node moves. */
  lemma {:induction false} PayloadStable<K(!new), T>(
    cmp: (K, K) -> int, ops: seq<Operation<K, T>>, more: seq<Operation<K, T>>, k: K)
    requires TotalOrder(cmp) && RemoveKey(k) !in more
    requires Run(cmp, ops).Some? && Lookup(cmp, Run(cmp, ops).value, k).Some?
    ensures Run(cmp, ops + more).Some?
    ensures Lookup(cmp, Run(cmp, ops + more).value, k) == Lookup(cmp, Run(cmp, ops).value, k)
  {
    if more == [] {
      assert ops + more == ops;
    } else {
      var init, op := more[..|more| - 1], more[|more| - 1];
      assert ops + more == ops + init + [op] && op in more;
      PayloadStable(cmp, ops, init, k);
      LastKeepsPayload(cmp, ops + init, op, k);
    }
  }
}
