/** avl_tree.c as it is written, on the heap. The methods ask only that no NULL is dereferenced
    and that no insertion leaves a node under two links; every run keeps to that. */
module AvlTree {
  import opened Options
  import opened TreeModel
  import opened AvlNode
  import W = WrittenTree

  /** The height assignment of avl_tree.c:120 and 168, as C parses it. */
  method StoredHeight<K, T>(left: Cell?<K, T>, right: Cell?<K, T>) returns (h: int)
    requires ValidTree(left) && ValidTree(right)
    ensures h == W.StoredHeight(ModelOf(left), ModelOf(right))
  {
    var l := GetHeight(left);
    var r := GetHeight(right);
    h := if 1 + (if l > r then 1 else 0) != 0 then l else r;
  }

  /** Line 120 or 168, at a node whose links may just have been assigned. */
  method Reheight<K, T>(node: Cell<K, T>)
    requires ValidTree(node.left) && ValidTree(node.right)
    requires node !in Owned(node.left) + Owned(node.right) && Owned(node.left) !! Owned(node.right)
    modifies node`height, node`Repr, node`Model
    ensures node.Valid() && node.Repr == {node} + Owned(node.left) + Owned(node.right)
    ensures node.Model == W.Build(ModelOf(node.left), node.data, ModelOf(node.right))
  {
    var h := StoredHeight(node.left, node.right);
    node.height := h;
    node.Seal();
  }

  /** Assigns a child link and then the height, as lines 114-120 and 148-168 do. */
  method LinkLeft<K, T>(current: Cell<K, T>, child: Cell?<K, T>)
    requires ValidTree(child) && ValidTree(current.right)
    requires current !in Owned(child) + Owned(current.right) && Owned(child) !! Owned(current.right)
    modifies current
    ensures current.Valid() && current.Repr == {current} + Owned(child) + Owned(current.right)
    ensures current.left == child && current.data == old(current.data) && current.right == old(current.right)
    ensures current.Model == W.Build(ModelOf(child), current.data, ModelOf(current.right))
  {
    current.left := child;
    Reheight(current);
  }

  method LinkRight<K, T>(current: Cell<K, T>, child: Cell?<K, T>)
    requires ValidTree(child) && ValidTree(current.left)
    requires current !in Owned(child) + Owned(current.left) && Owned(child) !! Owned(current.left)
    modifies current
    ensures current.Valid() && current.Repr == {current} + Owned(child) + Owned(current.left)
    ensures current.right == child && current.data == old(current.data) && current.left == old(current.left)
    ensures current.Model == W.Build(ModelOf(current.left), current.data, ModelOf(child))
  {
    current.right := child;
    Reheight(current);
  }

  // ---- Rotations ----

  /** The first half of right_rotation: the node takes over its child's right subtree. */
  method DemoteRight<K, T>(node: Cell<K, T>, child: Cell<K, T>)
    requires node.Valid() && node.left == child
    modifies node
    ensures node.Valid() && node.left == child.right && ValidTree(child.left)
    ensures child !in node.Repr + Owned(child.left) && node.Repr !! Owned(child.left)
    ensures {child} + node.Repr + Owned(child.left) == old(node.Repr)
    ensures var t := old(node.Model);
            && node.Model == W.Build(t.left.right, t.data, t.right)
            && ModelOf(child.left) == t.left.left && child.data == t.left.data
  {
    Links(node);
    Links(child);
    var save := child.right;
    RegroupSets(node, child, Owned(node.right), Owned(save), Owned(child.left));
    LinkLeft(node, save);
  }

  /** The second half: the node goes under its child. */
  method CrownRight<K, T>(node: Cell<K, T>, child: Cell<K, T>, h: int)
    requires node.Valid() && ValidTree(child.left)
    requires child !in node.Repr + Owned(child.left) && node.Repr !! Owned(child.left)
    modifies child
    ensures child.Valid() && child.Repr == {child} + node.Repr + Owned(child.left)
    ensures child.Model == Node(ModelOf(child.left), old(child.data), h, node.Model)
    ensures ModelOf(child.left) == old(ModelOf(child.left)) && Owned(child.left) == old(Owned(child.left))
  {
    child.right := node;
    child.height := h;
    child.Seal();
  }

  /** right_rotation: the child's height is taken from `save`, which must not be NULL. */
  method RightRotation<K, T>(node: Cell<K, T>) returns (child: Cell<K, T>)
    requires node.Valid() && W.RotateRight(node.Model).Some?
    modifies node, node.left
    ensures child.Valid() && child.Repr == old(node.Repr)
    ensures W.RotateRight(old(node.Model)) == Some(child.Model)
  {
    child := node.left;
    Links(child);
    var save := child.right;
    var h := StoredHeight(save.left, save.right);
    DemoteRight(node, child);
    CrownRight(node, child, h);
  }

  method DemoteLeft<K, T>(node: Cell<K, T>, child: Cell<K, T>)
    requires node.Valid() && node.right == child
    modifies node
    ensures node.Valid() && node.right == child.left && ValidTree(child.right)
    ensures child !in node.Repr + Owned(child.right) && node.Repr !! Owned(child.right)
    ensures {child} + node.Repr + Owned(child.right) == old(node.Repr)
    ensures var t := old(node.Model);
            && node.Model == W.Build(t.left, t.data, t.right.left)
            && ModelOf(child.right) == t.right.right && child.data == t.right.data
  {
    Links(node);
    Links(child);
    var save := child.left;
    RegroupSets(node, child, Owned(node.left), Owned(save), Owned(child.right));
    LinkRight(node, save);
  }

  /** The second half: the node goes under its child. */
  method CrownLeft<K, T>(node: Cell<K, T>, child: Cell<K, T>, h: int)
    requires node.Valid() && ValidTree(child.right)
    requires child !in node.Repr + Owned(child.right) && node.Repr !! Owned(child.right)
    modifies child
    ensures child.Valid() && child.Repr == {child} + node.Repr + Owned(child.right)
    ensures child.Model == Node(node.Model, old(child.data), h, ModelOf(child.right))
    ensures ModelOf(child.right) == old(ModelOf(child.right)) && Owned(child.right) == old(Owned(child.right))
  {
    child.left := node;
    child.height := h;
    child.Seal();
  }

  /** left_rotation */
  method LeftRotation<K, T>(node: Cell<K, T>) returns (child: Cell<K, T>)
    requires node.Valid() && W.RotateLeft(node.Model).Some?
    modifies node, node.right
    ensures child.Valid() && child.Repr == old(node.Repr)
    ensures W.RotateLeft(old(node.Model)) == Some(child.Model)
  {
    child := node.right;
    Links(child);
    var save := child.left;
    var h := StoredHeight(save.left, save.right);
    DemoteLeft(node, child);
    CrownLeft(node, child, h);
  }

  /** Lines 174 and 178: removal turns the child first. */
  method TurnLeftChild<K, T>(node: Cell<K, T>)
    requires node.Valid() && node.left != null && W.RotateLeft(node.left.Model).Some?
    modifies node.Repr
    ensures node.Valid() && node.Repr == old(node.Repr)
    ensures var t := old(node.Model);
            node.Model == t.(left := W.RotateLeft(t.left).value)
  {
    Links(node);
    var l := LeftRotation(node.left);
    AttachLeft(node, l);
  }

  method TurnRightChild<K, T>(node: Cell<K, T>)
    requires node.Valid() && node.right != null && W.RotateRight(node.right.Model).Some?
    modifies node.Repr
    ensures node.Valid() && node.Repr == old(node.Repr)
    ensures var t := old(node.Model);
            node.Model == t.(right := W.RotateRight(t.right).value)
  {
    Links(node);
    var r := RightRotation(node.right);
    AttachRight(node, r);
  }

  // ---- Insertion ----

  /** Lines 122-138. The statements of lines 127 and 134, which no run reaches, would leave a
      node under two links and are not modelled here. */
  method FixAfterAdd<K, T>(cmp: (K, K) -> int, current: Cell<K, T>, e: Entry<K, T>) returns (root: Cell<K, T>)
    requires current.Valid() && W.FixAfterAdd(cmp, current.Model, e).Some? && !W.TurnsNode(cmp, current.Model, e)
    modifies current.Repr
    ensures root.Valid() && root.Repr == old(current.Repr)
    ensures W.FixAfterAdd(cmp, old(current.Model), e) == Some(root.Model)
  {
    var balance := GetBalance(current);
    if balance > 1 {
      var res := cmp(e.key, current.left.data.key);
      if res > 0 {
        assert false;
      }
      root := RightRotation(current);
    } else if balance < -1 {
      var res := cmp(e.key, current.right.data.key);
      if res < 0 {
        assert false;
      }
      root := LeftRotation(current);
    } else {
      root := current;
    }
  }

  /** private_avl_add; e is the data of the new node. */
  method PrivateAdd<K, T>(cmp: (K, K) -> int, newNode: Cell<K, T>, e: Entry<K, T>, current: Cell?<K, T>)
    returns (root: Cell<K, T>)
    requires ValidTree(current)
    requires W.Add(cmp, ModelOf(current), e).Some? && !W.Tangles(cmp, ModelOf(current), e)
    requires newNode.Valid() && newNode.Repr == {newNode} && newNode !in Owned(current)
    requires newNode.Model == Node(Leaf, e, 1, Leaf)
    modifies Owned(current), newNode
    ensures root.Valid() && root.Repr <= old(Owned(current)) + {newNode}
    ensures W.Add(cmp, old(ModelOf(current)), e) == Some(root.Model)
    decreases Owned(current), 1
  {
    if current == null {
      return newNode;
    }
    var res := cmp(e.key, current.data.key);
    if res < 0 {
      AddLeft(cmp, newNode, e, current);
    } else if res > 0 {
      AddRight(cmp, newNode, e, current);
    } else {
      return current;
    }
    root := FixAfterAdd(cmp, current, e);
  }

  method AddLeft<K, T>(cmp: (K, K) -> int, newNode: Cell<K, T>, e: Entry<K, T>, current: Cell<K, T>)
    requires current.Valid()
    requires W.Add(cmp, current.Model.left, e).Some? && !W.Tangles(cmp, current.Model.left, e)
    requires newNode.Valid() && newNode.Repr == {newNode} && newNode !in current.Repr
    requires newNode.Model == Node(Leaf, e, 1, Leaf)
    modifies current.Repr, newNode
    ensures current.Valid() && current.Repr <= old(current.Repr) + {newNode}
    ensures var t := old(current.Model);
            var l := W.Add(cmp, t.left, e);
            l.Some? && current.Model == W.Build(l.value, t.data, t.right)
    decreases current.Repr, 0
  {
    Links(current);
    var l := PrivateAdd(cmp, newNode, e, current.left);
    LinkLeft(current, l);
  }

  method AddRight<K, T>(cmp: (K, K) -> int, newNode: Cell<K, T>, e: Entry<K, T>, current: Cell<K, T>)
    requires current.Valid()
    requires W.Add(cmp, current.Model.right, e).Some? && !W.Tangles(cmp, current.Model.right, e)
    requires newNode.Valid() && newNode.Repr == {newNode} && newNode !in current.Repr
    requires newNode.Model == Node(Leaf, e, 1, Leaf)
    modifies current.Repr, newNode
    ensures current.Valid() && current.Repr <= old(current.Repr) + {newNode}
    ensures var t := old(current.Model);
            var r := W.Add(cmp, t.right, e);
            r.Some? && current.Model == W.Build(t.left, t.data, r.value)
    decreases current.Repr, 0
  {
    Links(current);
    var r := PrivateAdd(cmp, newNode, e, current.right);
    LinkRight(current, r);
  }

  // ---- Removal ----

  /** `*current = *temp` and then line 168: the only child's node is emptied into its parent. */
  method MoveUp<K, T>(current: Cell<K, T>, temp: Cell<K, T>)
    requires temp.Valid() && current !in temp.Repr
    modifies current
    ensures current.Valid() && current.Repr == temp.Repr - {temp} + {current}
    ensures var t := temp.Model; current.Model == W.Build(t.left, t.data, t.right)
  {
    current.height, current.data, current.left, current.right := temp.height, temp.data, temp.left, temp.right;
    Reheight(current);
  }

  /** Lines 170-182. */
  method FixAfterRemove<K, T>(current: Cell<K, T>) returns (root: Cell<K, T>)
    requires current.Valid() && W.FixAfterRemove(current.Model).Some?
    modifies current.Repr
    ensures root.Valid() && root.Repr == old(current.Repr)
    ensures W.FixAfterRemove(old(current.Model)) == Some(root.Model)
  {
    var balance := GetBalance(current);
    if balance > 1 {
      var lean := GetBalance(current.left);
      if lean < 0 {
        TurnLeftChild(current);
      }
      root := RightRotation(current);
    } else if balance < -1 {
      var lean := GetBalance(current.right);
      if lean > 0 {
        TurnRightChild(current);
      }
      root := LeftRotation(current);
    } else {
      root := current;
    }
  }

  /** private_avl_remove */
  method PrivateRemove<K, T>(cmp: (K, K) -> int, current: Cell?<K, T>, k: K) returns (root: Cell?<K, T>)
    requires ValidTree(current) && W.Remove(cmp, ModelOf(current), k).Some?
    modifies Owned(current)
    ensures ValidTree(root) && Owned(root) <= old(Owned(current))
    ensures W.Remove(cmp, old(ModelOf(current)), k) == Some(ModelOf(root))
    decreases Owned(current), 1
  {
    if current == null {
      return null;
    }
    var res := cmp(k, current.data.key);
    if res < 0 {
      RemoveLeft(cmp, current, k);
    } else if res > 0 {
      RemoveRight(cmp, current, k);
    } else if current.left == null || current.right == null {
      var temp := if current.left != null then current.left else current.right;
      if temp == null {
        return null;
      }
      MoveUp(current, temp);
    } else {
      Reheight(current);
    }
    root := FixAfterRemove(current);
  }

  method RemoveLeft<K, T>(cmp: (K, K) -> int, current: Cell<K, T>, k: K)
    requires current.Valid() && W.Remove(cmp, current.Model.left, k).Some?
    modifies current.Repr
    ensures current.Valid() && current.Repr <= old(current.Repr)
    ensures var t := old(current.Model);
            var l := W.Remove(cmp, t.left, k);
            l.Some? && current.Model == W.Build(l.value, t.data, t.right)
    decreases current.Repr, 0
  {
    var l := PrivateRemove(cmp, current.left, k);
    LinkLeft(current, l);
  }

  method RemoveRight<K, T>(cmp: (K, K) -> int, current: Cell<K, T>, k: K)
    requires current.Valid() && W.Remove(cmp, current.Model.right, k).Some?
    modifies current.Repr
    ensures current.Valid() && current.Repr <= old(current.Repr)
    ensures var t := old(current.Model);
            var r := W.Remove(cmp, t.right, k);
            r.Some? && current.Model == W.Build(t.left, t.data, r.value)
    decreases current.Repr, 0
  {
    var r := PrivateRemove(cmp, current.right, k);
    LinkRight(current, r);
  }

  /** The tree part of avl_add. */
  method AddToTree<K, T>(cmp: (K, K) -> int, root: Cell?<K, T>, e: Entry<K, T>) returns (r: Cell?<K, T>, code: Code)
    requires ValidTree(root) && W.BitHeights(ModelOf(root))
    modifies Owned(root)
    ensures ValidTree(r) && fresh(Owned(r) - old(Owned(root)))
    ensures W.Step(cmp, old(ModelOf(root)), AddEntry(e)) == (Some(ModelOf(r)), code)
  {
    var found := PrivateGet(cmp, root, e.key);
    if found != null {
      return root, DuplicatedKey;
    }
    W.AddIsPlain(cmp, ModelOf(root), e);
    var node := new Cell(e);
    r := PrivateAdd(cmp, node, e, root);
    code := Ok;
  }

  /** The tree part of avl_remove. */
  method RemoveFromTree<K, T>(cmp: (K, K) -> int, root: Cell?<K, T>, k: K) returns (r: Cell?<K, T>, code: Code)
    requires ValidTree(root) && W.BitHeights(ModelOf(root))
    modifies Owned(root)
    ensures ValidTree(r) && Owned(r) <= old(Owned(root))
    ensures W.Step(cmp, old(ModelOf(root)), RemoveKey(k)) == (Some(ModelOf(r)), code)
  {
    var found := PrivateGet(cmp, root, k);
    if found == null {
      return root, KeyNotFound;
    }
    W.RemoveIsPlain(cmp, ModelOf(root), k);
    r := PrivateRemove(cmp, root, k);
    code := Ok;
  }

  /** avl_tree_t: the root, the count, and the comparator it was made with. */
  class AvlTree<K(!new), T> {
    var size: nat
    var root: Cell?<K, T>
    const cmp: (K, K) -> int
    ghost var Model: Tree<K, T>
    ghost var Deleted: nat      // the nodes deleted so far
    ghost var Repr: set<object> // the tree and its nodes; payloads are not among them

    ghost predicate Valid()
      reads this, Repr
      ensures Valid() ==> this in Repr
    {
      && this in Repr
      && (root != null ==> root in Repr && root.Repr <= Repr)
      && ValidTree(root) && Model == ModelOf(root)
      && W.Sound(cmp, Model)
      && W.Counted(Model, size, Deleted)
    }

    /** new_avl_tree */
    constructor (cmp: (K, K) -> int)
      requires TotalOrder(cmp)
      ensures Valid() && fresh(Repr) && Model == Leaf && size == Deleted == 0 && this.cmp == cmp
    {
      this.cmp, size, root, Model, Deleted, Repr := cmp, 0, null, Leaf, 0, {this};
    }

    /** Takes over a new root. */
    method Install(r: Cell?<K, T>, n: nat, ghost deleted: nat)
      requires ValidTree(r) && W.Sound(cmp, ModelOf(r)) && W.Counted(ModelOf(r), n, deleted)
      modifies this
      ensures Valid() && size == n && Deleted == deleted
      ensures Model == old(ModelOf(r)) && Repr == old(NodesOf(r)) + {this}
    {
      root, size, Model, Deleted, Repr := r, n, ModelOf(r), deleted, NodesOf(r) + {this};
    }

    static ghost function NodesOf(r: Cell?<K, T>): set<object>
      reads r
    {
      Owned(r)
    }

    /** avl_add, with the data already copied and without the write to the file. */
    method Add(e: Entry<K, T>) returns (code: Code)
      requires Valid() && TotalOrder(cmp)
      modifies Repr
      ensures Valid() && fresh(Repr - old(Repr))
      ensures (Some(Model), code) == W.Step(cmp, old(Model), AddEntry(e))
      ensures size == (if code == Ok then old(size) + 1 else old(size)) && Deleted == old(Deleted)
    {
      ghost var t := Model;
      var r;
      r, code := AddToTree(cmp, root, e);
      W.StepStaysSound(cmp, t, AddEntry(e), ModelOf(r));
      W.StepKeepsCount(cmp, t, AddEntry(e), ModelOf(r), code, size, Deleted);
      Install(r, if code == Ok then size + 1 else size, Deleted);
    }

    /** avl_remove, without the rewrite. The size stays as it was, whether or not a node went. */
    method Remove(k: K) returns (code: Code)
      requires Valid() && TotalOrder(cmp)
      modifies Repr
      ensures Valid() && Repr <= old(Repr)
      ensures (Some(Model), code) == W.Step(cmp, old(Model), RemoveKey(k))
      ensures size == old(size)
      ensures Deleted == old(Deleted) + if W.Deletes(cmp, old(Model), RemoveKey(k)) then 1 else 0
    {
      ghost var t := Model;
      var r;
      r, code := RemoveFromTree(cmp, root, k);
      W.StepStaysSound(cmp, t, RemoveKey(k), ModelOf(r));
      W.StepKeepsCount(cmp, t, RemoveKey(k), ModelOf(r), code, size, Deleted);
      Install(r, size, Deleted + if W.Deletes(cmp, t, RemoveKey(k)) then 1 else 0);
    }

    /** The size is the number of keys if and only if no node has been deleted so far. */
    lemma SizeIsKeysIff()
      requires Valid() && TotalOrder(cmp)
      ensures size == |Contents(Model)| + Deleted
      ensures size == |Contents(Model)| <==> Deleted == 0
    {
      SizeCountsKeys(cmp, Model);
    }

    /** avl_get */
    method Get(k: K) returns (payload: Option<T>)
      requires Valid() && TotalOrder(cmp)
      ensures payload == if k in Contents(Model) then Some(Contents(Model)[k]) else None
    {
      LookupReadsContents(cmp, Model, k);
      var found := PrivateGet(cmp, root, k);
      payload := if found == null then None else Some(found.data.payload);
    }
  }
}
