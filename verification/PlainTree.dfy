/** An unbalanced search tree whose removal leaves a node with two children alone. No
    function here reads a height, and every node it builds stores 0. */
module PlainTree {
  import opened Options
  import opened TreeModel

  function Bin<K, T>(l: Tree<K, T>, d: Entry<K, T>, r: Tree<K, T>): Tree<K, T> {
    Node(l, d, 0, r)
  }

  function Erase<K, T>(t: Tree<K, T>): Tree<K, T> {
    if t.Leaf? then Leaf else Bin(Erase(t.left), t.data, Erase(t.right))
  }

  function Add<K, T>(cmp: (K, K) -> int, t: Tree<K, T>, e: Entry<K, T>): Tree<K, T> {
    if t.Leaf? then Bin(Leaf, e, Leaf)
    else if cmp(e.key, t.data.key) < 0 then Bin(Add(cmp, t.left, e), t.data, t.right)
    else if cmp(e.key, t.data.key) > 0 then Bin(t.left, t.data, Add(cmp, t.right, e))
    else t
  }

  function Remove<K, T>(cmp: (K, K) -> int, t: Tree<K, T>, k: K): Tree<K, T> {
    if t.Leaf? then Leaf
    else if cmp(k, t.data.key) < 0 then Bin(Remove(cmp, t.left, k), t.data, t.right)
    else if cmp(k, t.data.key) > 0 then Bin(t.left, t.data, Remove(cmp, t.right, k))
    else if t.left.Leaf? then t.right
    else if t.right.Leaf? then t.left
    else t
  }

  /** The test of avl_tree.c:152 at the node that holds the key. */
  predicate HasSpareChild<K, T>(t: Tree<K, T>) {
    t.Node? && (t.left.Leaf? || t.right.Leaf?)
  }

  lemma {:induction false} EraseKeepsMeaning<K(!new), T>(cmp: (K, K) -> int, t: Tree<K, T>)
    ensures Contents(Erase(t)) == Contents(t) && Inorder(Erase(t)) == Inorder(t)
    ensures Ordered(cmp, Erase(t)) <==> Ordered(cmp, t)
    ensures Depth(Erase(t)) == Depth(t)
  {
    if t.Node? {
      EraseKeepsMeaning(cmp, t.left);
      EraseKeepsMeaning(cmp, t.right);
    }
  }

  lemma {:induction false} EraseKeepsFind<K, T>(cmp: (K, K) -> int, t: Tree<K, T>, k: K)
    ensures Find(cmp, Erase(t), k) == Erase(Find(cmp, t, k))
  {
    if t.Node? {
      EraseKeepsFind(cmp, t.left, k);
      EraseKeepsFind(cmp, t.right, k);
    }
  }

  /** Contents of a node in which one subtree gains the key k. */
  lemma JoinGains<K, T>(l: map<K, T>, d: Entry<K, T>, r: map<K, T>, k: K, v: T)
    requires k != d.key
    ensures k !in r ==> l[k := v][d.key := d.payload] + r == (l[d.key := d.payload] + r)[k := v]
    ensures l[d.key := d.payload] + r[k := v] == (l[d.key := d.payload] + r)[k := v]
  {
  }

  /** Contents of a node in which one subtree loses the key k. */
  lemma JoinLoses<K, T>(l: map<K, T>, d: Entry<K, T>, r: map<K, T>, k: K)
    requires k != d.key
    ensures k !in r ==> (l - {k})[d.key := d.payload] + r == (l[d.key := d.payload] + r) - {k}
    ensures k !in l ==> l[d.key := d.payload] + (r - {k}) == (l[d.key := d.payload] + r) - {k}
  {
  }

  /** A key below the root can only be on the left, a key above it only on the right. */
  lemma SideOfKey<K(!new), T>(cmp: (K, K) -> int, t: Tree<K, T>, k: K)
    requires TotalOrder(cmp) && Ordered(cmp, t) && t.Node?
    ensures cmp(k, t.data.key) < 0 ==> k != t.data.key && k !in Contents(t.right)
    ensures cmp(k, t.data.key) > 0 ==> k != t.data.key && k !in Contents(t.left)
    ensures cmp(k, t.data.key) == 0 ==> k == t.data.key && k !in Contents(t.left) && k !in Contents(t.right)
  {
  }

  lemma ReplaceLeft<K(!new), T>(cmp: (K, K) -> int, t: Tree<K, T>, l: Tree<K, T>)
    requires t.Node? && Ordered(cmp, t) && Ordered(cmp, l) && AllBelow(cmp, l, t.data.key)
    ensures Ordered(cmp, Bin(l, t.data, t.right))
  {
  }

  lemma ReplaceRight<K(!new), T>(cmp: (K, K) -> int, t: Tree<K, T>, r: Tree<K, T>)
    requires t.Node? && Ordered(cmp, t) && Ordered(cmp, r) && AllAbove(cmp, t.data.key, r)
    ensures Ordered(cmp, Bin(t.left, t.data, r))
  {
  }

  lemma {:induction false} AddInserts<K(!new), T>(cmp: (K, K) -> int, t: Tree<K, T>, e: Entry<K, T>)
    requires TotalOrder(cmp) && Ordered(cmp, t)
    ensures Ordered(cmp, Add(cmp, t, e))
    ensures Contents(Add(cmp, t, e)) ==
            if e.key in Contents(t) then Contents(t) else Contents(t)[e.key := e.payload]
  {
    if t.Node? {
      SideOfKey(cmp, t, e.key);
      if cmp(e.key, t.data.key) < 0 {
        JoinGains(Contents(t.left), t.data, Contents(t.right), e.key, e.payload);
        AddInserts(cmp, t.left, e);
        ReplaceLeft(cmp, t, Add(cmp, t.left, e));
      } else if cmp(e.key, t.data.key) > 0 {
        JoinGains(Contents(t.left), t.data, Contents(t.right), e.key, e.payload);
        AddInserts(cmp, t.right, e);
        ReplaceRight(cmp, t, Add(cmp, t.right, e));
      }
    }
  }

  lemma RemoveRoot<K(!new), T>(cmp: (K, K) -> int, t: Tree<K, T>)
    requires TotalOrder(cmp) && Ordered(cmp, t) && HasSpareChild(t)
    ensures Contents(if t.left.Leaf? then t.right else t.left) == Contents(t) - {t.data.key}
  {
  }

  /** The exact law of removal: the key goes if and only if its node has at most one child;
      otherwise nothing changes. */
  lemma {:induction false} RemoveLaw<K(!new), T>(cmp: (K, K) -> int, t: Tree<K, T>, k: K)
    requires TotalOrder(cmp) && Ordered(cmp, t)
    ensures Ordered(cmp, Remove(cmp, t, k))
    ensures Contents(Remove(cmp, t, k)) ==
            if HasSpareChild(Find(cmp, t, k)) then Contents(t) - {k} else Contents(t)
  {
    if t.Node? {
      SideOfKey(cmp, t, k);
      if cmp(k, t.data.key) == 0 {
        if HasSpareChild(t) {
          RemoveRoot(cmp, t);
        }
      } else {
        JoinLoses(Contents(t.left), t.data, Contents(t.right), k);
        if cmp(k, t.data.key) < 0 {
          RemoveLaw(cmp, t.left, k);
          ReplaceLeft(cmp, t, Remove(cmp, t.left, k));
        } else {
          RemoveLaw(cmp, t.right, k);
          ReplaceRight(cmp, t, Remove(cmp, t.right, k));
        }
      }
    }
  }

  lemma {:induction false} KnownOrMissingKey<K, T>(cmp: (K, K) -> int, t: Tree<K, T>, k: K)
    ensures Find(cmp, t, k).Node? ==> forall v :: Add(cmp, Erase(t), Entry(k, v)) == Erase(t)
    ensures Find(cmp, t, k).Leaf? ==> Remove(cmp, Erase(t), k) == Erase(t)
  {
    if t.Node? {
      KnownOrMissingKey(cmp, t.left, k);
      KnownOrMissingKey(cmp, t.right, k);
    }
  }
}
