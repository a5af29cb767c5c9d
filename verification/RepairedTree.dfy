/** avl_tree.c as it is meant, with four repairs: heights are 1 + max, a rotated child's
    height is taken from its own children, the double rotation of an insertion turns the
    child, and a node with two children is removed through its in-order successor.
    None is a NULL dereference. */
module RepairedTree {
  import opened Options
  import opened TreeModel
  import PlainTree

  function Max(a: int, b: int): int {
    if a > b then a else b
  }

  function Build<K, T>(l: Tree<K, T>, d: Entry<K, T>, r: Tree<K, T>): Tree<K, T> {
    Node(l, d, 1 + Max(Height(l), Height(r)), r)
  }

  function RotateRight<K, T>(t: Tree<K, T>): Option<Tree<K, T>> {
    if t.Leaf? || t.left.Leaf? then None
    else Some(Build(t.left.left, t.left.data, Build(t.left.right, t.data, t.right)))
  }

  function RotateLeft<K, T>(t: Tree<K, T>): Option<Tree<K, T>> {
    if t.Leaf? || t.right.Leaf? then None
    else Some(Build(Build(t.left, t.data, t.right.left), t.right.data, t.right.right))
  }

  /** The double rotations: the child turns first. */
  function RotateLeftRight<K, T>(t: Tree<K, T>): Option<Tree<K, T>>
    requires t.Node?
  {
    match RotateLeft(t.left)
    case None => None
    case Some(l) => RotateRight(t.(left := l))
  }

  function RotateRightLeft<K, T>(t: Tree<K, T>): Option<Tree<K, T>>
    requires t.Node?
  {
    match RotateRight(t.right)
    case None => None
    case Some(r) => RotateLeft(t.(right := r))
  }

  function FixAfterAdd<K, T>(cmp: (K, K) -> int, t: Tree<K, T>, e: Entry<K, T>): Option<Tree<K, T>>
    requires t.Node?
  {
    if Balance(t) > 1 then
      if t.left.Leaf? then None
      else if cmp(e.key, t.left.data.key) > 0 then RotateLeftRight(t)
      else RotateRight(t)
    else if Balance(t) < -1 then
      if t.right.Leaf? then None
      else if cmp(e.key, t.right.data.key) < 0 then RotateRightLeft(t)
      else RotateLeft(t)
    else Some(t)
  }

  function Add<K, T>(cmp: (K, K) -> int, t: Tree<K, T>, e: Entry<K, T>): Option<Tree<K, T>> {
    if t.Leaf? then Some(Node(Leaf, e, 1, Leaf))
    else if cmp(e.key, t.data.key) < 0 then
      match Add(cmp, t.left, e)
      case None => None
      case Some(l) => FixAfterAdd(cmp, Build(l, t.data, t.right), e)
    else if cmp(e.key, t.data.key) > 0 then
      match Add(cmp, t.right, e)
      case None => None
      case Some(r) => FixAfterAdd(cmp, Build(t.left, t.data, r), e)
    else Some(t)
  }

  function FixAfterRemove<K, T>(t: Tree<K, T>): Option<Tree<K, T>>
    requires t.Node?
  {
    if Balance(t) > 1 then
      if Balance(t.left) < 0 then RotateLeftRight(t) else RotateRight(t)
    else if Balance(t) < -1 then
      if Balance(t.right) > 0 then RotateRightLeft(t) else RotateLeft(t)
    else Some(t)
  }

  /** The data of the leftmost node. */
  function Least<K, T>(t: Tree<K, T>): Entry<K, T>
    requires t.Node?
  {
    if t.left.Leaf? then t.data else Least(t.left)
  }

  function Remove<K, T>(cmp: (K, K) -> int, t: Tree<K, T>, k: K): Option<Tree<K, T>> {
    if t.Leaf? then Some(Leaf)
    else if cmp(k, t.data.key) < 0 then
      match Remove(cmp, t.left, k)
      case None => None
      case Some(l) => FixAfterRemove(Build(l, t.data, t.right))
    else if cmp(k, t.data.key) > 0 then
      match Remove(cmp, t.right, k)
      case None => None
      case Some(r) => FixAfterRemove(Build(t.left, t.data, r))
    else if t.left.Leaf? || t.right.Leaf? then
      var temp := if t.left.Node? then t.left else t.right;
      if temp.Leaf? then Some(Leaf)
      else FixAfterRemove(Build(temp.left, temp.data, temp.right))
    else
      var next := Least(t.right);
      match Remove(cmp, t.right, next.key)
      case None => None
      case Some(r) => FixAfterRemove(Build(t.left, next, r))
  }

  /** avl_add and avl_remove */
  function Step<K, T>(cmp: (K, K) -> int, t: Tree<K, T>, op: Operation<K, T>): (Option<Tree<K, T>>, Code) {
    match op
    case AddEntry(e) =>
      if Find(cmp, t, e.key).Node? then (Some(t), DuplicatedKey) else (Add(cmp, t, e), Ok)
    case RemoveKey(k) =>
      if Find(cmp, t, k).Leaf? then (Some(t), KeyNotFound) else (Remove(cmp, t, k), Ok)
  }

  function Run<K, T>(cmp: (K, K) -> int, ops: seq<Operation<K, T>>): Option<Tree<K, T>> {
    if ops == [] then Some(Leaf)
    else
      match Run(cmp, ops[..|ops| - 1])
      case None => None
      case Some(t) => Step(cmp, t, ops[|ops| - 1]).0
  }

  /** Every node stores its exact height and its subtrees differ by at most one. */
  predicate Balanced<K, T>(t: Tree<K, T>) {
    t.Node? ==>
      && Balanced(t.left)
      && Balanced(t.right)
      && t.height == 1 + Max(Height(t.left), Height(t.right))
      && -1 <= Balance(t) <= 1
  }

  lemma {:induction false} StoredHeightsExact<K, T>(t: Tree<K, T>)
    requires Balanced(t)
    ensures Height(t) == Depth(t)
  {
    if t.Node? {
      StoredHeightsExact(t.left);
      StoredHeightsExact(t.right);
    }
  }

  // ---- Rotations preserve meaning ----

  lemma RegroupSeqs<E>(a: seq<E>, x: E, b: seq<E>, y: E, c: seq<E>)
    ensures (a + [x] + b) + [y] + c == a + [x] + (b + [y] + c)
  {
  }

  lemma RegroupMaps<K, T>(a: map<K, T>, x: Entry<K, T>, b: map<K, T>, y: Entry<K, T>, c: map<K, T>)
    ensures (a[x.key := x.payload] + b)[y.key := y.payload] + c == a[x.key := x.payload] + (b[y.key := y.payload] + c)
  {
  }

  /** Turning a pair of nodes over regroups the traversal and the map without reordering. */
  lemma Regroup<K, T>(l: Tree<K, T>, r: Tree<K, T>, y: Entry<K, T>, c: Tree<K, T>)
    requires l.Node? && r == Build(l.right, y, c)
    ensures Inorder(Build(l, y, c)) == Inorder(Build(l.left, l.data, r))
    ensures Contents(Build(l, y, c)) == Contents(Build(l.left, l.data, r))
  {
    RegroupSeqs(Inorder(l.left), l.data, Inorder(l.right), y, Inorder(c));
    RegroupMaps(Contents(l.left), l.data, Contents(l.right), y, Contents(c));
  }

  lemma RegroupOrder<K(!new), T>(cmp: (K, K) -> int, l: Tree<K, T>, r: Tree<K, T>, y: Entry<K, T>, c: Tree<K, T>)
    requires TotalOrder(cmp) && l.Node? && r == Build(l.right, y, c)
    ensures Ordered(cmp, Build(l, y, c)) <==> Ordered(cmp, Build(l.left, l.data, r))
  {
    var a, x, b := l.left, l.data, l.right;
    if Ordered(cmp, Build(l, y, c)) {
      assert Ordered(cmp, l) && Ordered(cmp, c);
      assert x.key in Contents(l) && cmp(x.key, y.key) < 0;
      assert forall k | k in Contents(b) :: k in Contents(l);
      assert Ordered(cmp, r);
      assert AllAbove(cmp, x.key, r);
    }
    if Ordered(cmp, Build(a, x, r)) {
      assert Ordered(cmp, a) && Ordered(cmp, r);
      assert y.key in Contents(r) && cmp(x.key, y.key) < 0;
      assert forall k | k in Contents(b) :: k in Contents(r);
      assert Ordered(cmp, l);
      assert AllBelow(cmp, l, y.key);
    }
  }

  /** Same payloads in the same order, same map, still a search tree. */
  ghost predicate SameMeaning<K, T>(cmp: (K, K) -> int, t: Tree<K, T>, u: Tree<K, T>) {
    && Inorder(u) == Inorder(t)
    && Contents(u) == Contents(t)
    && (Ordered(cmp, t) ==> Ordered(cmp, u))
  }

  lemma RotateRightKeepsMeaning<K(!new), T>(cmp: (K, K) -> int, t: Tree<K, T>)
    requires TotalOrder(cmp) && t.Node? && t.left.Node?
    ensures RotateRight(t).Some? && SameMeaning(cmp, t, RotateRight(t).value)
  {
    var r := Build(t.left.right, t.data, t.right);
    Regroup(t.left, r, t.data, t.right);
    RegroupOrder(cmp, t.left, r, t.data, t.right);
  }

  lemma RotateLeftKeepsMeaning<K(!new), T>(cmp: (K, K) -> int, t: Tree<K, T>)
    requires TotalOrder(cmp) && t.Node? && t.right.Node?
    ensures RotateLeft(t).Some? && SameMeaning(cmp, t, RotateLeft(t).value)
  {
    var l, r := Build(t.left, t.data, t.right.left), Build(t.right.left, t.right.data, t.right.right);
    Regroup(l, r, t.right.data, t.right.right);
    RegroupOrder(cmp, l, r, t.right.data, t.right.right);
    assert Contents(r) == Contents(t.right) && Inorder(r) == Inorder(t.right);
    assert Ordered(cmp, t.right) ==> Ordered(cmp, r);
  }

  lemma ReplaceChild<K(!new), T>(cmp: (K, K) -> int, t: Tree<K, T>, l: Tree<K, T>, r: Tree<K, T>)
    requires t.Node? && SameMeaning(cmp, t.left, l) && SameMeaning(cmp, t.right, r)
    ensures SameMeaning(cmp, t, t.(left := l, right := r))
  {
  }

  lemma RotateLeftRightKeepsMeaning<K(!new), T>(cmp: (K, K) -> int, t: Tree<K, T>)
    requires TotalOrder(cmp) && t.Node? && t.left.Node? && t.left.right.Node?
    ensures RotateLeftRight(t).Some? && SameMeaning(cmp, t, RotateLeftRight(t).value)
  {
    RotateLeftKeepsMeaning(cmp, t.left);
    var u := t.(left := RotateLeft(t.left).value);
    ReplaceChild(cmp, t, u.left, t.right);
    RotateRightKeepsMeaning(cmp, u);
  }

  lemma RotateRightLeftKeepsMeaning<K(!new), T>(cmp: (K, K) -> int, t: Tree<K, T>)
    requires TotalOrder(cmp) && t.Node? && t.right.Node? && t.right.left.Node?
    ensures RotateRightLeft(t).Some? && SameMeaning(cmp, t, RotateRightLeft(t).value)
  {
    RotateRightKeepsMeaning(cmp, t.right);
    var u := t.(right := RotateRight(t.right).value);
    ReplaceChild(cmp, t, t.left, u.right);
    RotateLeftKeepsMeaning(cmp, u);
  }

  // ---- Rotations lower the overweight side ----

  /** A node whose subtrees are balanced but may differ by two. */
  predicate Leaning<K, T>(t: Tree<K, T>) {
    && t.Node?
    && Balanced(t.left)
    && Balanced(t.right)
    && t.height == 1 + Max(Height(t.left), Height(t.right))
    && -2 <= Balance(t) <= 2
  }

  lemma {:induction false} HeightsNatural<K, T>(t: Tree<K, T>)
    requires Balanced(t)
    ensures Height(t) >= 0 && (Height(t) == 0 <==> t.Leaf?)
    ensures t.Node? ==> Height(t.left) >= 0 && Height(t.right) >= 0
    ensures t.Node? ==> (Height(t.left) == 0 <==> t.left.Leaf?) && (Height(t.right) == 0 <==> t.right.Leaf?)
  {
    if t.Node? {
      HeightsNatural(t.left);
      HeightsNatural(t.right);
    }
  }

  lemma RotateRightBalances<K, T>(t: Tree<K, T>)
    requires Leaning(t) && Balance(t) == 2 && Balance(t.left) >= 0
    ensures RotateRight(t).Some? && Balanced(RotateRight(t).value)
    ensures Height(RotateRight(t).value) == if Balance(t.left) == 0 then t.height else t.height - 1
  {
    HeightsNatural(t.left);
    HeightsNatural(t.right);
    assert Balanced(Build(t.left.right, t.data, t.right));
  }

  lemma RotateLeftBalances<K, T>(t: Tree<K, T>)
    requires Leaning(t) && Balance(t) == -2 && Balance(t.right) <= 0
    ensures RotateLeft(t).Some? && Balanced(RotateLeft(t).value)
    ensures Height(RotateLeft(t).value) == if Balance(t.right) == 0 then t.height else t.height - 1
  {
    HeightsNatural(t.left);
    HeightsNatural(t.right);
    assert Balanced(Build(t.left, t.data, t.right.left));
  }

  lemma RotateLeftRightBalances<K, T>(t: Tree<K, T>)
    requires Leaning(t) && Balance(t) == 2 && Balance(t.left) == -1
    ensures t.left.right.Node?
    ensures RotateLeftRight(t).Some? && Balanced(RotateLeftRight(t).value)
    ensures Height(RotateLeftRight(t).value) == t.height - 1
  {
    var l, m := t.left, t.left.right;
    HeightsNatural(l);
    assert Balanced(m) && Balanced(m.left) && Balanced(m.right);
    var left := Build(l.left, l.data, m.left);
    assert RotateLeft(l) == Some(Build(left, m.data, m.right));
    assert Balanced(left);
  }

  lemma RotateRightLeftBalances<K, T>(t: Tree<K, T>)
    requires Leaning(t) && Balance(t) == -2 && Balance(t.right) == 1
    ensures t.right.left.Node?
    ensures RotateRightLeft(t).Some? && Balanced(RotateRightLeft(t).value)
    ensures Height(RotateRightLeft(t).value) == t.height - 1
  {
    var r, m := t.right, t.right.left;
    HeightsNatural(r);
    assert Balanced(m) && Balanced(m.left) && Balanced(m.right);
    var right := Build(m.right, r.data, r.right);
    assert RotateRight(r) == Some(Build(m.left, m.data, right));
    assert Balanced(right);
  }

  // ---- Insertion ----

  /** What a key may have changed on its way into a subtree: it stays balanced and grows by at
      most one; if it grew, its root stays and leans to the side of the key. */
  ghost predicate Grown<K, T>(cmp: (K, K) -> int, t: Tree<K, T>, e: Entry<K, T>, u: Tree<K, T>) {
    && u.Node? && Balanced(u) && Height(t) <= Height(u) <= Height(t) + 1
    && (t.Node? && Height(u) == Height(t) + 1 ==>
          u.data == t.data && Balance(u) == if cmp(e.key, t.data.key) < 0 then 1 else -1)
  }

  /** Adding a new key never meets NULL, keeps balance, and grows the height by at most one. */
  lemma {:induction false} AddBalances<K, T>(cmp: (K, K) -> int, t: Tree<K, T>, e: Entry<K, T>)
    requires Balanced(t) && Find(cmp, t, e.key).Leaf?
    ensures Add(cmp, t, e).Some? && Grown(cmp, t, e, Add(cmp, t, e).value)
  {
    if t.Node? {
      if cmp(e.key, t.data.key) < 0 {
        AddBalances(cmp, t.left, e);
        LeftGrown(cmp, t, e, Add(cmp, t.left, e).value);
      } else {
        AddBalances(cmp, t.right, e);
        RightGrown(cmp, t, e, Add(cmp, t.right, e).value);
      }
    }
  }

  lemma LeftGrown<K, T>(cmp: (K, K) -> int, t: Tree<K, T>, e: Entry<K, T>, l: Tree<K, T>)
    requires t.Node? && Balanced(t) && Grown(cmp, t.left, e, l) && cmp(e.key, t.data.key) < 0
    requires t.left.Node? ==> cmp(e.key, t.left.data.key) != 0
    ensures var o := FixAfterAdd(cmp, Build(l, t.data, t.right), e); o.Some? && Grown(cmp, t, e, o.value)
  {
    HeightsNatural(t.left);
    HeightsNatural(t.right);
    var u := Build(l, t.data, t.right);
    assert Leaning(u);
    if Balance(u) == 2 {
      AddRebalances(cmp, t, u, e);
    }
  }

  lemma RightGrown<K, T>(cmp: (K, K) -> int, t: Tree<K, T>, e: Entry<K, T>, r: Tree<K, T>)
    requires t.Node? && Balanced(t) && Grown(cmp, t.right, e, r) && cmp(e.key, t.data.key) > 0
    requires t.right.Node? ==> cmp(e.key, t.right.data.key) != 0
    ensures var o := FixAfterAdd(cmp, Build(t.left, t.data, r), e); o.Some? && Grown(cmp, t, e, o.value)
  {
    HeightsNatural(t.left);
    HeightsNatural(t.right);
    var u := Build(t.left, t.data, r);
    assert Leaning(u);
    if Balance(u) == -2 {
      AddRebalances(cmp, t, u, e);
    }
  }

  lemma AddRebalances<K, T>(cmp: (K, K) -> int, t: Tree<K, T>, u: Tree<K, T>, e: Entry<K, T>)
    requires t.Node? && Leaning(u) && u.height == t.height + 1
    requires Balance(u) == 2 ==> u.left.Node? && cmp(e.key, u.left.data.key) != 0
    requires Balance(u) == 2 ==> Balance(u.left) == if cmp(e.key, u.left.data.key) < 0 then 1 else -1
    requires Balance(u) == -2 ==> u.right.Node? && cmp(e.key, u.right.data.key) != 0
    requires Balance(u) == -2 ==> Balance(u.right) == if cmp(e.key, u.right.data.key) < 0 then 1 else -1
    requires Balance(u) == 2 || Balance(u) == -2
    ensures FixAfterAdd(cmp, u, e).Some?
    ensures Balanced(FixAfterAdd(cmp, u, e).value) && Height(FixAfterAdd(cmp, u, e).value) == t.height
  {
    if Balance(u) == 2 {
      if Balance(u.left) == -1 {
        RotateLeftRightBalances(u);
      } else {
        RotateRightBalances(u);
      }
    } else {
      if Balance(u.right) == 1 {
        RotateRightLeftBalances(u);
      } else {
        RotateLeftBalances(u);
      }
    }
  }

  lemma FixAfterAddKeepsMeaning<K(!new), T>(cmp: (K, K) -> int, t: Tree<K, T>, e: Entry<K, T>)
    requires TotalOrder(cmp) && t.Node? && FixAfterAdd(cmp, t, e).Some?
    ensures SameMeaning(cmp, t, FixAfterAdd(cmp, t, e).value)
  {
    if Balance(t) > 1 {
      if cmp(e.key, t.left.data.key) > 0 {
        RotateLeftRightKeepsMeaning(cmp, t);
      } else {
        RotateRightKeepsMeaning(cmp, t);
      }
    } else if Balance(t) < -1 {
      if cmp(e.key, t.right.data.key) < 0 {
        RotateRightLeftKeepsMeaning(cmp, t);
      } else {
        RotateLeftKeepsMeaning(cmp, t);
      }
    }
  }

  lemma {:induction false} AddInserts<K(!new), T>(cmp: (K, K) -> int, t: Tree<K, T>, e: Entry<K, T>)
    requires TotalOrder(cmp) && Ordered(cmp, t) && Balanced(t) && Find(cmp, t, e.key).Leaf?
    ensures Add(cmp, t, e).Some? && Ordered(cmp, Add(cmp, t, e).value)
    ensures Contents(Add(cmp, t, e).value) == Contents(t)[e.key := e.payload]
  {
    AddBalances(cmp, t, e);
    if t.Node? {
      PlainTree.SideOfKey(cmp, t, e.key);
      PlainTree.JoinGains(Contents(t.left), t.data, Contents(t.right), e.key, e.payload);
      if cmp(e.key, t.data.key) < 0 {
        AddInserts(cmp, t.left, e);
        FixAfterAddKeepsMeaning(cmp, Build(Add(cmp, t.left, e).value, t.data, t.right), e);
      } else {
        AddInserts(cmp, t.right, e);
        FixAfterAddKeepsMeaning(cmp, Build(t.left, t.data, Add(cmp, t.right, e).value), e);
      }
    }
  }

  // ---- Removal ----

  lemma FixAfterRemoveBalances<K, T>(t: Tree<K, T>)
    requires Leaning(t)
    ensures FixAfterRemove(t).Some? && Balanced(FixAfterRemove(t).value)
    ensures if Balanced(t) then FixAfterRemove(t) == Some(t)
            else t.height - 1 <= Height(FixAfterRemove(t).value) <= t.height
  {
    HeightsNatural(t.left);
    HeightsNatural(t.right);
    if Balance(t) == 2 {
      if Balance(t.left) == -1 {
        RotateLeftRightBalances(t);
      } else {
        RotateRightBalances(t);
      }
    } else if Balance(t) == -2 {
      if Balance(t.right) == 1 {
        RotateRightLeftBalances(t);
      } else {
        RotateLeftBalances(t);
      }
    }
  }

  /** Removing a key never meets NULL, keeps balance, and lowers the height by at most one. */
  lemma {:induction false} RemoveBalances<K, T>(cmp: (K, K) -> int, t: Tree<K, T>, k: K)
    requires Balanced(t)
    ensures Remove(cmp, t, k).Some?
    ensures Balanced(Remove(cmp, t, k).value) && Height(t) - 1 <= Height(Remove(cmp, t, k).value) <= Height(t)
  {
    if t.Node? {
      HeightsNatural(t.left);
      HeightsNatural(t.right);
      if cmp(k, t.data.key) < 0 {
        RemoveBalances(cmp, t.left, k);
        FixAfterRemoveBalances(Build(Remove(cmp, t.left, k).value, t.data, t.right));
      } else if cmp(k, t.data.key) > 0 {
        RemoveBalances(cmp, t.right, k);
        FixAfterRemoveBalances(Build(t.left, t.data, Remove(cmp, t.right, k).value));
      } else if t.left.Node? && t.right.Node? {
        var next := Least(t.right);
        RemoveBalances(cmp, t.right, next.key);
        FixAfterRemoveBalances(Build(t.left, next, Remove(cmp, t.right, next.key).value));
      } else {
        var temp := if t.left.Node? then t.left else t.right;
        if temp.Node? {
          FixAfterRemoveBalances(Build(temp.left, temp.data, temp.right));
        }
      }
    }
  }

  lemma FixAfterRemoveKeepsMeaning<K(!new), T>(cmp: (K, K) -> int, t: Tree<K, T>)
    requires TotalOrder(cmp) && t.Node? && FixAfterRemove(t).Some?
    ensures SameMeaning(cmp, t, FixAfterRemove(t).value)
  {
    if Balance(t) > 1 {
      if Balance(t.left) < 0 {
        RotateLeftRightKeepsMeaning(cmp, t);
      } else {
        RotateRightKeepsMeaning(cmp, t);
      }
    } else if Balance(t) < -1 {
      if Balance(t.right) > 0 {
        RotateRightLeftKeepsMeaning(cmp, t);
      } else {
        RotateLeftKeepsMeaning(cmp, t);
      }
    }
  }

  lemma {:induction false} LeastIsFirst<K(!new), T>(cmp: (K, K) -> int, t: Tree<K, T>)
    requires TotalOrder(cmp) && Ordered(cmp, t) && t.Node?
    ensures Least(t).key in Contents(t) && Contents(t)[Least(t).key] == Least(t).payload
    ensures forall k | k in Contents(t) && k != Least(t).key :: cmp(Least(t).key, k) < 0
  {
    RootSplitsKeys(cmp, t);
    if t.left.Node? {
      LeastIsFirst(cmp, t.left);
    }
  }

  lemma PromoteMaps<K, T>(l: map<K, T>, d: Entry<K, T>, r: map<K, T>, n: Entry<K, T>)
    requires d.key !in l && d.key !in r && l.Keys !! r.Keys && n.key in r && r[n.key] == n.payload
    ensures l[n.key := n.payload] + (r - {n.key}) == (l[d.key := d.payload] + r) - {d.key}
  {
  }

  /** The node in which the in-order successor has taken the removed key's place. */
  lemma Promote<K(!new), T>(cmp: (K, K) -> int, t: Tree<K, T>, r: Tree<K, T>)
    requires TotalOrder(cmp) && Ordered(cmp, t) && t.Node? && t.right.Node?
    requires Ordered(cmp, r) && Contents(r) == Contents(t.right) - {Least(t.right).key}
    ensures Ordered(cmp, Build(t.left, Least(t.right), r))
    ensures Contents(Build(t.left, Least(t.right), r)) == Contents(t) - {t.data.key}
  {
    LeastIsFirst(cmp, t.right);
    var n := Least(t.right);
    RootSplitsKeys(cmp, t);
    PromoteMaps(Contents(t.left), t.data, Contents(t.right), n);
    assert cmp(t.data.key, n.key) < 0;
    assert AllBelow(cmp, t.left, n.key);
    assert AllAbove(cmp, n.key, r);
  }

  lemma Collapse<K(!new), T>(cmp: (K, K) -> int, t: Tree<K, T>)
    requires TotalOrder(cmp) && Ordered(cmp, t) && PlainTree.HasSpareChild(t)
    requires Remove(cmp, t, t.data.key).Some?
    ensures Ordered(cmp, Remove(cmp, t, t.data.key).value)
    ensures Contents(Remove(cmp, t, t.data.key).value) == Contents(t) - {t.data.key}
  {
    assert cmp(t.data.key, t.data.key) == 0;
    PlainTree.RemoveRoot(cmp, t);
    var temp := if t.left.Node? then t.left else t.right;
    if temp.Node? {
      FixAfterRemoveKeepsMeaning(cmp, Build(temp.left, temp.data, temp.right));
    }
  }

  lemma {:induction false} RemoveDeletes<K(!new), T>(cmp: (K, K) -> int, t: Tree<K, T>, k: K)
    requires TotalOrder(cmp) && Ordered(cmp, t) && Balanced(t)
    ensures Remove(cmp, t, k).Some? && Ordered(cmp, Remove(cmp, t, k).value)
    ensures Contents(Remove(cmp, t, k).value) == Contents(t) - {k}
  {
    RemoveBalances(cmp, t, k);
    if t.Node? {
      PlainTree.SideOfKey(cmp, t, k);
      if cmp(k, t.data.key) < 0 {
        PlainTree.JoinLoses(Contents(t.left), t.data, Contents(t.right), k);
        RemoveDeletes(cmp, t.left, k);
        FixAfterRemoveKeepsMeaning(cmp, Build(Remove(cmp, t.left, k).value, t.data, t.right));
      } else if cmp(k, t.data.key) > 0 {
        PlainTree.JoinLoses(Contents(t.left), t.data, Contents(t.right), k);
        RemoveDeletes(cmp, t.right, k);
        FixAfterRemoveKeepsMeaning(cmp, Build(t.left, t.data, Remove(cmp, t.right, k).value));
      } else if PlainTree.HasSpareChild(t) {
        Collapse(cmp, t);
      } else {
        RemoveDeletes(cmp, t.right, Least(t.right).key);
        var r := Remove(cmp, t.right, Least(t.right).key).value;
        Promote(cmp, t, r);
        FixAfterRemoveKeepsMeaning(cmp, Build(t.left, Least(t.right), r));
      }
    }
  }

  // ---- Whole runs ----

  /** One call is exactly one step of the finite map. */
  lemma StepLaw<K(!new), T>(cmp: (K, K) -> int, t: Tree<K, T>, op: Operation<K, T>)
    requires TotalOrder(cmp) && Ordered(cmp, t) && Balanced(t)
    ensures var (o, code) := Step(cmp, t, op);
            && o.Some? && Ordered(cmp, o.value) && Balanced(o.value)
            && (Contents(o.value), code) == MapStep(Contents(t), op)
  {
    match op
    case AddEntry(e) =>
      LookupReadsContents(cmp, t, e.key);
      if e.key !in Contents(t) {
        AddBalances(cmp, t, e);
        AddInserts(cmp, t, e);
      }
    case RemoveKey(k) =>
      LookupReadsContents(cmp, t, k);
      RemoveBalances(cmp, t, k);
      RemoveDeletes(cmp, t, k);
  }

  /** A search tree of exact heights and balanced nodes, and the number of its nodes. */
  ghost predicate Sound<K, T>(cmp: (K, K) -> int, t: Tree<K, T>, size: nat) {
    Ordered(cmp, t) && Balanced(t) && Size(t) == size
  }

  /** The size after a call: the last repair makes removal decrement it. */
  function NextSize<K, T>(size: nat, op: Operation<K, T>, code: Code): int {
    if code != Ok then size else if op.AddEntry? then size + 1 else size - 1
  }

  lemma MapStepCounts<K, T>(m: map<K, T>, op: Operation<K, T>)
    ensures |MapStep(m, op).0| == NextSize(|m|, op, MapStep(m, op).1)
  {
  }

  lemma StepIsDefined<K(!new), T>(cmp: (K, K) -> int, t: Tree<K, T>, size: nat, op: Operation<K, T>)
    requires TotalOrder(cmp) && Sound(cmp, t, size)
    ensures Step(cmp, t, op).0.Some?
  {
    StepLaw(cmp, t, op);
  }

  /** A call keeps all that, and the size with it. */
  lemma StepStaysSound<K(!new), T>(
    cmp: (K, K) -> int, t: Tree<K, T>, size: nat, op: Operation<K, T>, u: Tree<K, T>, code: Code)
    requires TotalOrder(cmp) && Sound(cmp, t, size) && Step(cmp, t, op) == (Some(u), code)
    ensures NextSize(size, op, code) >= 0 && Sound(cmp, u, NextSize(size, op, code))
  {
    StepLaw(cmp, t, op);
    MapStepCounts(Contents(t), op);
    SizeCountsKeys(cmp, t);
    SizeCountsKeys(cmp, u);
  }

  /** So with the decrement the size stays the number of keys. */
  lemma SizeStaysExact<K(!new), T>(
    cmp: (K, K) -> int, t: Tree<K, T>, size: nat, op: Operation<K, T>, u: Tree<K, T>, code: Code)
    requires TotalOrder(cmp) && Sound(cmp, t, size) && Step(cmp, t, op) == (Some(u), code)
    ensures size == |Contents(t)| && NextSize(size, op, code) == |Contents(u)|
  {
    StepStaysSound(cmp, t, size, op, u, code);
    SizeCountsKeys(cmp, t);
    SizeCountsKeys(cmp, u);
  }

  /** Every run from the empty tree keeps search order, exact stored heights and balance, and
      builds the map the same calls build. */
  lemma {:induction false} EveryRunBalanced<K(!new), T>(cmp: (K, K) -> int, ops: seq<Operation<K, T>>)
    requires TotalOrder(cmp)
    ensures var o := Run(cmp, ops);
            o.Some? && Ordered(cmp, o.value) && Balanced(o.value) && Contents(o.value) == MapRun(ops)
  {
    if ops != [] {
      EveryRunBalanced(cmp, ops[..|ops| - 1]);
      StepLaw(cmp, Run(cmp, ops[..|ops| - 1]).value, ops[|ops| - 1]);
    }
  }

  function Fib(n: nat): nat {
    if n < 2 then n else Fib(n - 2) + Fib(n - 1)
  }

  function Pow2(n: nat): nat {
    if n == 0 then 1 else 2 * Pow2(n - 1)
  }

  lemma {:induction false} FibGrows(m: nat, n: nat)
    requires m <= n
    ensures Fib(m + 1) <= Fib(n + 1)
    decreases n
  {
    if m < n {
      FibGrows(m, n - 1);
    }
  }

  lemma FibSplits(l: nat, r: nat)
    requires l <= r + 1 && r <= l + 1
    ensures Fib(l + 2) + Fib(r + 2) >= Fib((if l > r then l else r) + 3)
  {
  }

  /** A balanced tree of height h has at least Fib(h + 2) - 1 nodes. */
  lemma {:induction false} BalancedIsBushy<K, T>(t: Tree<K, T>)
    requires Balanced(t)
    ensures Size(t) + 1 >= Fib(Depth(t) + 2)
  {
    StoredHeightsExact(t);
    if t.Node? {
      StoredHeightsExact(t.left);
      StoredHeightsExact(t.right);
      BalancedIsBushy(t.left);
      BalancedIsBushy(t.right);
      FibSplits(Depth(t.left), Depth(t.right));
    }
  }

  lemma {:induction false} FibDoubles(h: nat)
    ensures Fib(h + 2) >= Pow2(h / 2)
  {
    if h >= 2 {
      FibDoubles(h - 2);
      FibGrows(h - 1, h);
      assert Fib(h + 2) == Fib(h) + Fib(h + 1);
      assert Pow2(h / 2) == 2 * Pow2((h - 2) / 2);
    }
  }

  lemma BalancedIsShallow<K, T>(t: Tree<K, T>)
    requires Balanced(t)
    ensures Pow2(Depth(t) / 2) <= Size(t) + 1
  {
    BalancedIsBushy(t);
    FibDoubles(Depth(t));
  }

  lemma {:induction false} Pow2Grows(m: nat, n: nat)
    requires m <= n
    ensures Pow2(m) <= Pow2(n)
    decreases n
  {
    if m < n {
      Pow2Grows(m, n - 1);
    }
  }

  /** After any run, no search makes more than 2 * log2(n + 1) + 1 comparisons among n records. */
  lemma SearchesAreLogarithmic<K(!new), T>(cmp: (K, K) -> int, ops: seq<Operation<K, T>>, k: K)
    requires TotalOrder(cmp)
    ensures Run(cmp, ops).Some?
    ensures Pow2(Probes(cmp, Run(cmp, ops).value, k) / 2) <= |MapRun(ops)| + 1
  {
    EveryRunBalanced(cmp, ops);
    var t := Run(cmp, ops).value;
    SizeCountsKeys(cmp, t);
    BalancedIsShallow(t);
    ProbesWithinDepth(cmp, t, k);
    Pow2Grows(Probes(cmp, t, k) / 2, Depth(t) / 2);
  }

  lemma StepKeepsPayload<K(!new), T>(cmp: (K, K) -> int, t: Tree<K, T>, op: Operation<K, T>, k: K)
    requires TotalOrder(cmp) && Ordered(cmp, t) && Balanced(t)
    requires op != RemoveKey(k) && Lookup(cmp, t, k).Some?
    ensures Step(cmp, t, op).0.Some? && Lookup(cmp, Step(cmp, t, op).0.value, k) == Lookup(cmp, t, k)
  {
    StepLaw(cmp, t, op);
    LookupReadsContents(cmp, t, k);
    LookupReadsContents(cmp, Step(cmp, t, op).0.value, k);
  }

  lemma LastKeepsPayload<K(!new), T>(cmp: (K, K) -> int, ops: seq<Operation<K, T>>, op: Operation<K, T>, k: K)
    requires TotalOrder(cmp) && op != RemoveKey(k)
    requires Run(cmp, ops).Some? && Lookup(cmp, Run(cmp, ops).value, k).Some?
    ensures Run(cmp, ops + [op]).Some?
    ensures Lookup(cmp, Run(cmp, ops + [op]).value, k) == Lookup(cmp, Run(cmp, ops).value, k)
  {
    assert (ops + [op])[..|ops|] == ops;
    EveryRunBalanced(cmp, ops);
    StepKeepsPayload(cmp, Run(cmp, ops).value, op, k);
  }

  /** A key that stays keeps its payload pointer, even when removal moves it to another node. */
  lemma {:induction false} PayloadStable<K(!new), T>(
    cmp: (K, K) -> int, ops: seq<Operation<K, T>>, more: seq<Operation<K, T>>, k: K)
    requires TotalOrder(cmp) && RemoveKey(k) !in more
    requires Run(cmp, ops).Some? && Lookup(cmp, Run(cmp, ops).value, k).Some?
    ensures Run(cmp, ops + more).Some?
    ensures Lookup(cmp, Run(cmp, ops + more).value, k) == Lookup(cmp, Run(cmp, ops).value, k)
  {
    if more == [] {
      assert ops + more == ops;
    } else {
      var init, op := more[..|more| - 1], more[|more| - 1];
      assert ops + more == ops + init + [op] && op in more;
      PayloadStable(cmp, ops, init, k);
      LastKeepsPayload(cmp, ops + init, op, k);
    }
  }
}
