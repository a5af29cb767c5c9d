/** avl_tree.c as it is meant, on the heap: the same in-place steps with the four repairs. A
    caller has to know only that no step would follow a NULL link. */
module RepairedAvl {
  import opened Options
  import opened TreeModel
  import opened AvlNode
  import R = RepairedTree

  /** The height assignment with its parentheses. */
  method Reheight<K, T>(node: Cell<K, T>)
    requires ValidTree(node.left) && ValidTree(node.right)
    requires node !in Owned(node.left) + Owned(node.right) && Owned(node.left) !! Owned(node.right)
    modifies node`height, node`Repr, node`Model
    ensures node.Valid() && node.Repr == {node} + Owned(node.left) + Owned(node.right)
    ensures node.Model == R.Build(ModelOf(node.left), node.data, ModelOf(node.right))
  {
    var l := GetHeight(node.left);
    var r := GetHeight(node.right);
    node.height := 1 + if l > r then l else r;
    node.Seal();
  }

  method LinkLeft<K, T>(node: Cell<K, T>, child: Cell?<K, T>)
    requires ValidTree(child) && ValidTree(node.right)
    requires node !in Owned(child) + Owned(node.right) && Owned(child) !! Owned(node.right)
    modifies node
    ensures node.Valid() && node.Repr == {node} + Owned(child) + Owned(node.right)
    ensures node.left == child && node.data == old(node.data) && node.right == old(node.right)
    ensures node.Model == R.Build(ModelOf(child), node.data, ModelOf(node.right))
  {
    node.left := child;
    Reheight(node);
  }

  method LinkRight<K, T>(node: Cell<K, T>, child: Cell?<K, T>)
    requires ValidTree(child) && ValidTree(node.left)
    requires node !in Owned(child) + Owned(node.left) && Owned(child) !! Owned(node.left)
    modifies node
    ensures node.Valid() && node.Repr == {node} + Owned(child) + Owned(node.left)
    ensures node.right == child && node.data == old(node.data) && node.left == old(node.left)
    ensures node.Model == R.Build(ModelOf(node.left), node.data, ModelOf(child))
  {
    node.right := child;
    Reheight(node);
  }

  /** The first half of a right rotation: the node takes over its child's right subtree. */
  method DemoteRight<K, T>(node: Cell<K, T>, child: Cell<K, T>)
    requires node.Valid() && node.left == child
    modifies node
    ensures node.Valid() && ValidTree(child.left)
    ensures child !in node.Repr + Owned(child.left) && node.Repr !! Owned(child.left)
    ensures {child} + node.Repr + Owned(child.left) == old(node.Repr)
    ensures var t := old(node.Model);
            && node.Model == R.Build(t.left.right, t.data, t.right)
            && ModelOf(child.left) == t.left.left && child.data == t.left.data
  {
    Links(node);
    Links(child);
    var save := child.right;
    RegroupSets(node, child, Owned(node.right), Owned(save), Owned(child.left));
    LinkLeft(node, save);
  }

  method RightRotation<K, T>(node: Cell<K, T>) returns (child: Cell<K, T>)
    requires node.Valid() && node.left != null
    modifies node, node.left
    ensures child.Valid() && child.Repr == old(node.Repr)
    ensures R.RotateRight(old(node.Model)) == Some(child.Model)
  {
    child := node.left;
    DemoteRight(node, child);
    LinkRight(child, node);
  }

  method DemoteLeft<K, T>(node: Cell<K, T>, child: Cell<K, T>)
    requires node.Valid() && node.right == child
    modifies node
    ensures node.Valid() && ValidTree(child.right)
    ensures child !in node.Repr + Owned(child.right) && node.Repr !! Owned(child.right)
    ensures {child} + node.Repr + Owned(child.right) == old(node.Repr)
    ensures var t := old(node.Model);
            && node.Model == R.Build(t.left, t.data, t.right.left)
            && ModelOf(child.right) == t.right.right && child.data == t.right.data
  {
    Links(node);
    Links(child);
    var save := child.left;
    RegroupSets(node, child, Owned(node.left), Owned(save), Owned(child.right));
    LinkRight(node, save);
  }

  method LeftRotation<K, T>(node: Cell<K, T>) returns (child: Cell<K, T>)
    requires node.Valid() && node.right != null
    modifies node, node.right
    ensures child.Valid() && child.Repr == old(node.Repr)
    ensures R.RotateLeft(old(node.Model)) == Some(child.Model)
  {
    child := node.right;
    DemoteLeft(node, child);
    LinkLeft(child, node);
  }

  /** The double rotations turn the child first. */
  method TurnLeftChild<K, T>(node: Cell<K, T>)
    requires node.Valid() && node.left != null && node.left.right != null
    modifies node.Repr
    ensures node.Valid() && node.Repr == old(node.Repr) && node.left != null
    ensures var t := old(node.Model);
            var l := R.RotateLeft(t.left);
            l.Some? && node.Model == t.(left := l.value)
  {
    Links(node);
    var l := LeftRotation(node.left);
    AttachLeft(node, l);
  }

  method LeftRightRotation<K, T>(node: Cell<K, T>) returns (child: Cell<K, T>)
    requires node.Valid() && node.left != null && node.left.right != null
    modifies node.Repr
    ensures child.Valid() && child.Repr == old(node.Repr)
    ensures R.RotateLeftRight(old(node.Model)) == Some(child.Model)
  {
    TurnLeftChild(node);
    child := RightRotation(node);
  }

  method TurnRightChild<K, T>(node: Cell<K, T>)
    requires node.Valid() && node.right != null && node.right.left != null
    modifies node.Repr
    ensures node.Valid() && node.Repr == old(node.Repr) && node.right != null
    ensures var t := old(node.Model);
            var r := R.RotateRight(t.right);
            r.Some? && node.Model == t.(right := r.value)
  {
    Links(node);
    var r := RightRotation(node.right);
    AttachRight(node, r);
  }

  method RightLeftRotation<K, T>(node: Cell<K, T>) returns (child: Cell<K, T>)
    requires node.Valid() && node.right != null && node.right.left != null
    modifies node.Repr
    ensures child.Valid() && child.Repr == old(node.Repr)
    ensures R.RotateRightLeft(old(node.Model)) == Some(child.Model)
  {
    TurnRightChild(node);
    child := LeftRotation(node);
  }

  /** avl_tree.c:122-138 */
  method FixAfterAdd<K, T>(cmp: (K, K) -> int, current: Cell<K, T>, e: Entry<K, T>) returns (root: Cell<K, T>)
    requires current.Valid() && R.FixAfterAdd(cmp, current.Model, e).Some?
    modifies current.Repr
    ensures root.Valid() && root.Repr == old(current.Repr)
    ensures R.FixAfterAdd(cmp, old(current.Model), e) == Some(root.Model)
  {
    var balance := GetBalance(current);
    if balance > 1 {
      var res := cmp(e.key, current.left.data.key);
      if res > 0 {
        root := LeftRightRotation(current);
      } else {
        root := RightRotation(current);
      }
    } else if balance < -1 {
      var res := cmp(e.key, current.right.data.key);
      if res < 0 {
        root := RightLeftRotation(current);
      } else {
        root := LeftRotation(current);
      }
    } else {
      root := current;
    }
  }

  /** avl_tree.c:170-182 */
  method FixAfterRemove<K, T>(current: Cell<K, T>) returns (root: Cell<K, T>)
    requires current.Valid() && R.FixAfterRemove(current.Model).Some?
    modifies current.Repr
    ensures root.Valid() && root.Repr == old(current.Repr)
    ensures R.FixAfterRemove(old(current.Model)) == Some(root.Model)
  {
    var balance := GetBalance(current);
    if balance > 1 {
      var lean := GetBalance(current.left);
      if lean < 0 {
        root := LeftRightRotation(current);
      } else {
        root := RightRotation(current);
      }
    } else if balance < -1 {
      var lean := GetBalance(current.right);
      if lean > 0 {
        root := RightLeftRotation(current);
      } else {
        root := LeftRotation(current);
      }
    } else {
      root := current;
    }
  }

  /** private_avl_add */
  method PrivateAdd<K, T>(cmp: (K, K) -> int, newNode: Cell<K, T>, e: Entry<K, T>, current: Cell?<K, T>)
    returns (root: Cell<K, T>)
    requires ValidTree(current) && R.Add(cmp, ModelOf(current), e).Some?
    requires newNode.Valid() && newNode.Repr == {newNode} && newNode !in Owned(current)
    requires newNode.Model == Node(Leaf, e, 1, Leaf)
    modifies Owned(current), newNode
    ensures root.Valid() && root.Repr <= old(Owned(current)) + {newNode}
    ensures R.Add(cmp, old(ModelOf(current)), e) == Some(root.Model)
    decreases Owned(current), 1
  {
    if current == null {
      return newNode;
    }
    var res := cmp(e.key, current.data.key);
    if res < 0 {
      AddLeft(cmp, newNode, e, current);
    } else if res > 0 {
      AddRight(cmp, newNode, e, current);
    } else {
      return current;
    }
    root := FixAfterAdd(cmp, current, e);
  }

  method AddLeft<K, T>(cmp: (K, K) -> int, newNode: Cell<K, T>, e: Entry<K, T>, current: Cell<K, T>)
    requires current.Valid() && R.Add(cmp, current.Model.left, e).Some?
    requires newNode.Valid() && newNode.Repr == {newNode} && newNode !in current.Repr
    requires newNode.Model == Node(Leaf, e, 1, Leaf)
    modifies current.Repr, newNode
    ensures current.Valid() && current.Repr <= old(current.Repr) + {newNode}
    ensures var t := old(current.Model);
            var l := R.Add(cmp, t.left, e);
            l.Some? && current.Model == R.Build(l.value, t.data, t.right)
    decreases current.Repr, 0
  {
    Links(current);
    var l := PrivateAdd(cmp, newNode, e, current.left);
    LinkLeft(current, l);
  }

  method AddRight<K, T>(cmp: (K, K) -> int, newNode: Cell<K, T>, e: Entry<K, T>, current: Cell<K, T>)
    requires current.Valid() && R.Add(cmp, current.Model.right, e).Some?
    requires newNode.Valid() && newNode.Repr == {newNode} && newNode !in current.Repr
    requires newNode.Model == Node(Leaf, e, 1, Leaf)
    modifies current.Repr, newNode
    ensures current.Valid() && current.Repr <= old(current.Repr) + {newNode}
    ensures var t := old(current.Model);
            var r := R.Add(cmp, t.right, e);
            r.Some? && current.Model == R.Build(t.left, t.data, r.value)
    decreases current.Repr, 0
  {
    Links(current);
    var r := PrivateAdd(cmp, newNode, e, current.right);
    LinkRight(current, r);
  }

  /** The in-order successor sits leftmost in the right subtree. */
  method LeastData<K, T>(node: Cell<K, T>) returns (e: Entry<K, T>)
    requires node.Valid()
    ensures e == R.Least(node.Model)
    decreases node.Repr
  {
    if node.left == null {
      e := node.data;
    } else {
      e := LeastData(node.left);
    }
  }

  /** `*current = *temp`, and the height. */
  method MoveUp<K, T>(current: Cell<K, T>, temp: Cell<K, T>)
    requires temp.Valid() && current !in temp.Repr
    modifies current
    ensures current.Valid() && current.Repr == temp.Repr - {temp} + {current}
    ensures var t := temp.Model; current.Model == R.Build(t.left, t.data, t.right)
  {
    current.data, current.left, current.right := temp.data, temp.left, temp.right;
    Reheight(current);
  }

  /** private_avl_remove, with the successor's data taking the place of the removed data. */
  method PrivateRemove<K, T>(cmp: (K, K) -> int, current: Cell?<K, T>, k: K) returns (root: Cell?<K, T>)
    requires ValidTree(current) && R.Remove(cmp, ModelOf(current), k).Some?
    modifies Owned(current)
    ensures ValidTree(root) && Owned(root) <= old(Owned(current))
    ensures R.Remove(cmp, old(ModelOf(current)), k) == Some(ModelOf(root))
    decreases Owned(current), 2
  {
    if current == null {
      return null;
    }
    var res := cmp(k, current.data.key);
    if res < 0 {
      RemoveLeft(cmp, current, k);
    } else if res > 0 {
      RemoveRight(cmp, current, k);
    } else if current.left == null || current.right == null {
      var temp := if current.left != null then current.left else current.right;
      if temp == null {
        return null;
      }
      MoveUp(current, temp);
    } else {
      RemoveBoth(cmp, current);
    }
    root := FixAfterRemove(current);
  }

  method RemoveLeft<K, T>(cmp: (K, K) -> int, current: Cell<K, T>, k: K)
    requires current.Valid() && R.Remove(cmp, current.Model.left, k).Some?
    modifies current.Repr
    ensures current.Valid() && current.Repr <= old(current.Repr)
    ensures var t := old(current.Model);
            var l := R.Remove(cmp, t.left, k);
            l.Some? && current.Model == R.Build(l.value, t.data, t.right)
    decreases current.Repr, 0
  {
    var l := PrivateRemove(cmp, current.left, k);
    LinkLeft(current, l);
  }

  method RemoveRight<K, T>(cmp: (K, K) -> int, current: Cell<K, T>, k: K)
    requires current.Valid() && R.Remove(cmp, current.Model.right, k).Some?
    modifies current.Repr
    ensures current.Valid() && current.Repr <= old(current.Repr)
    ensures var t := old(current.Model);
            var r := R.Remove(cmp, t.right, k);
            r.Some? && current.Model == R.Build(t.left, t.data, r.value)
    decreases current.Repr, 0
  {
    var r := PrivateRemove(cmp, current.right, k);
    LinkRight(current, r);
  }

  /** The node gets other data. */
  method Replace<K, T>(node: Cell<K, T>, e: Entry<K, T>)
    requires node.Valid()
    modifies node`data, node`Repr, node`Model
    ensures node.Valid() && node.Repr == old(node.Repr) && node.Model == old(node.Model).(data := e)
  {
    node.data := e;
    node.Seal();
  }

  method RemoveBoth<K, T>(cmp: (K, K) -> int, current: Cell<K, T>)
    requires current.Valid() && current.right != null
    requires R.Remove(cmp, current.Model.right, R.Least(current.Model.right).key).Some?
    modifies current.Repr
    ensures current.Valid() && current.Repr <= old(current.Repr)
    ensures var t := old(current.Model);
            var next := R.Least(t.right);
            var r := R.Remove(cmp, t.right, next.key);
            r.Some? && current.Model == R.Build(t.left, next, r.value)
    decreases current.Repr, 1
  {
    var next := LeastData(current.right);
    RemoveRight(cmp, current, next.key);
    Replace(current, next);
  }

  /** The tree part of avl_add. */
  method AddToTree<K, T>(cmp: (K, K) -> int, root: Cell?<K, T>, e: Entry<K, T>) returns (r: Cell?<K, T>, code: Code)
    requires ValidTree(root) && R.Step(cmp, ModelOf(root), AddEntry(e)).0.Some?
    modifies Owned(root)
    ensures ValidTree(r) && fresh(Owned(r) - old(Owned(root)))
    ensures R.Step(cmp, old(ModelOf(root)), AddEntry(e)) == (Some(ModelOf(r)), code)
  {
    var found := PrivateGet(cmp, root, e.key);
    if found != null {
      return root, DuplicatedKey;
    }
    var node := new Cell(e);
    r := PrivateAdd(cmp, node, e, root);
    code := Ok;
  }

  /** The tree part of avl_remove. */
  method RemoveFromTree<K, T>(cmp: (K, K) -> int, root: Cell?<K, T>, k: K) returns (r: Cell?<K, T>, code: Code)
    requires ValidTree(root) && R.Step(cmp, ModelOf(root), RemoveKey(k)).0.Some?
    modifies Owned(root)
    ensures ValidTree(r) && Owned(r) <= old(Owned(root))
    ensures R.Step(cmp, old(ModelOf(root)), RemoveKey(k)) == (Some(ModelOf(r)), code)
  {
    var found := PrivateGet(cmp, root, k);
    if found == null {
      return root, KeyNotFound;
    }
    r := PrivateRemove(cmp, root, k);
    code := Ok;
  }

  /** avl_tree_t over the repaired operations. */
  class RepairedAvlTree<K(!new), T> {
    var size: nat
    var root: Cell?<K, T>
    const cmp: (K, K) -> int
    ghost var Model: Tree<K, T>
    ghost var Repr: set<object>

    /** The size is the number of nodes, as it is meant to be. */
    ghost predicate Valid()
      reads this, Repr
      ensures Valid() ==> this in Repr
    {
      && this in Repr
      && (root != null ==> root in Repr && root.Repr <= Repr)
      && ValidTree(root) && Model == ModelOf(root)
      && R.Sound(cmp, Model, size)
    }

    constructor (cmp: (K, K) -> int)
      ensures Valid() && fresh(Repr) && Model == Leaf && size == 0 && this.cmp == cmp
    {
      this.cmp, size, root, Model, Repr := cmp, 0, null, Leaf, {this};
    }

    method Install(r: Cell?<K, T>, n: nat)
      requires ValidTree(r) && R.Sound(cmp, ModelOf(r), n)
      modifies this
      ensures Valid() && size == n && Model == old(ModelOf(r)) && Repr == old(NodesOf(r)) + {this}
    {
      root, size, Model, Repr := r, n, ModelOf(r), NodesOf(r) + {this};
    }

    static ghost function NodesOf(r: Cell?<K, T>): set<object>
      reads r
    {
      Owned(r)
    }

    /** avl_add */
    method Add(e: Entry<K, T>) returns (code: Code)
      requires Valid() && TotalOrder(cmp)
      modifies Repr
      ensures Valid() && fresh(Repr - old(Repr))
      ensures R.Step(cmp, old(Model), AddEntry(e)) == (Some(Model), code)
      ensures size == if code == Ok then old(size) + 1 else old(size)
    {
      ghost var t := Model;
      R.StepIsDefined(cmp, t, size, AddEntry(e));
      var r;
      r, code := AddToTree(cmp, root, e);
      R.StepStaysSound(cmp, t, size, AddEntry(e), ModelOf(r), code);
      Install(r, if code == Ok then size + 1 else size);
    }

    /** avl_remove */
    method Remove(k: K) returns (code: Code)
      requires Valid() && TotalOrder(cmp)
      modifies Repr
      ensures Valid() && Repr <= old(Repr)
      ensures R.Step(cmp, old(Model), RemoveKey(k)) == (Some(Model), code)
      ensures size == if code == Ok then old(size) - 1 else old(size)
    {
      ghost var t := Model;
      R.StepIsDefined(cmp, t, size, RemoveKey(k));
      var r;
      r, code := RemoveFromTree(cmp, root, k);
      R.StepStaysSound(cmp, t, size, RemoveKey(k), ModelOf(r), code);
      Install(r, if code == Ok then size - 1 else size);
    }

    /** The size is the number of keys. */
    lemma SizeIsKeys()
      requires Valid() && TotalOrder(cmp)
      ensures size == |Contents(Model)|
    {
      SizeCountsKeys(cmp, Model);
    }

    /** avl_get */
    method Get(k: K) returns (payload: Option<T>)
      requires Valid() && TotalOrder(cmp)
      ensures payload == if k in Contents(Model) then Some(Contents(Model)[k]) else None
    {
      LookupReadsContents(cmp, Model, k);
      var found := PrivateGet(cmp, root, k);
      payload := if found == null then None else Some(found.data.payload);
    }
  }
}
