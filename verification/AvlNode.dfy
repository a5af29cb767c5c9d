/** The node of avl_tree.h: two links, a data pointer and a stored height, all rewritten in
    place. */
module AvlNode {
  import opened Options
  import opened TreeModel

  class Cell<K, T> {
    var height: int
    var data: Entry<K, T>
    var left: Cell?<K, T>
    var right: Cell?<K, T>

    ghost var Repr: set<Cell<K, T>>
    ghost var Model: Tree<K, T>

    ghost predicate Valid()
      reads this, Repr
      ensures Valid() ==> this in Repr && Model.Node?
    {
      && this in Repr
      && (left != null ==> left in Repr && left.Repr <= Repr && this !in left.Repr && left.Valid())
      && (right != null ==> right in Repr && right.Repr <= Repr && this !in right.Repr && right.Valid())
      && (left != null && right != null ==> left.Repr !! right.Repr)
      && Repr == {this} + Owned(left) + Owned(right)
      && Model == Node(ModelOf(left), data, height, ModelOf(right))
    }

    /** new_avl_node: a leaf of height 1. */
    constructor (data: Entry<K, T>)
      ensures Valid() && fresh(Repr) && Repr == {this}
      ensures Model == Node(Leaf, data, 1, Leaf)
    {
      this.height, this.data, this.left, this.right := 1, data, null, null;
      Repr, Model := {this}, Node(Leaf, data, 1, Leaf);
    }

    /** Restores the ghost view of a node whose fields have been assigned. */
    ghost method Seal()
      requires left != null ==> left.Valid() && this !in left.Repr
      requires right != null ==> right.Valid() && this !in right.Repr
      requires left != null && right != null ==> left.Repr !! right.Repr
      modifies this`Repr, this`Model
      ensures Valid() && Repr == {this} + Owned(left) + Owned(right)
      ensures Model == Node(ModelOf(left), data, height, ModelOf(right))
    {
      Repr := {this} + Owned(left) + Owned(right);
      Model := Node(ModelOf(left), data, height, ModelOf(right));
    }
  }

  ghost function ModelOf<K, T>(c: Cell?<K, T>): Tree<K, T>
    reads c
  {
    if c == null then Leaf else c.Model
  }

  ghost function Owned<K, T>(c: Cell?<K, T>): set<Cell<K, T>>
    reads c
  {
    if c == null then {} else c.Repr
  }

  ghost predicate ValidTree<K, T>(c: Cell?<K, T>)
    reads c, Owned(c)
  {
    c != null ==> c.Valid()
  }

  /** What a sound node says of its links. */
  lemma Links<K, T>(c: Cell<K, T>)
    requires c.Valid()
    ensures ValidTree(c.left) && ValidTree(c.right) && Owned(c.left) !! Owned(c.right)
    ensures c !in Owned(c.left) && c !in Owned(c.right)
    ensures c.Repr == {c} + Owned(c.left) + Owned(c.right)
    ensures c.Model == Node(ModelOf(c.left), c.data, c.height, ModelOf(c.right))
  {
  }

  /** The nodes of a pair before and after a rotation. */
  lemma RegroupSets<C>(n: C, c: C, x: set<C>, y: set<C>, z: set<C>)
    ensures {c} + ({n} + x + y) + z == {n} + ({c} + y + z) + x
    ensures {c} + ({n} + y + x) + z == {n} + x + ({c} + z + y)
  {
  }

  /** get_height and get_balance */
  method GetHeight<K, T>(c: Cell?<K, T>) returns (h: int)
    requires ValidTree(c)
    ensures h == Height(ModelOf(c))
  {
    h := if c == null then 0 else c.height;
  }

  method GetBalance<K, T>(c: Cell?<K, T>) returns (b: int)
    requires ValidTree(c)
    ensures b == Balance(ModelOf(c))
  {
    if c == null {
      return 0;
    }
    var l := GetHeight(c.left);
    var r := GetHeight(c.right);
    b := l - r;
  }

  /** Assigns a child link and nothing else. */
  method AttachLeft<K, T>(node: Cell<K, T>, l: Cell<K, T>)
    requires l.Valid() && ValidTree(node.right)
    requires node !in l.Repr + Owned(node.right) && l.Repr !! Owned(node.right)
    modifies node`left, node`Repr, node`Model
    ensures node.Valid() && node.left == l && node.Repr == {node} + l.Repr + Owned(node.right)
    ensures node.Model == Node(l.Model, node.data, node.height, ModelOf(node.right))
  {
    node.left := l;
    node.Seal();
  }

  /** Assigns a child link and nothing else. */
  method AttachRight<K, T>(node: Cell<K, T>, r: Cell<K, T>)
    requires r.Valid() && ValidTree(node.left)
    requires node !in r.Repr + Owned(node.left) && r.Repr !! Owned(node.left)
    modifies node`right, node`Repr, node`Model
    ensures node.Valid() && node.right == r && node.Repr == {node} + r.Repr + Owned(node.left)
    ensures node.Model == Node(ModelOf(node.left), node.data, node.height, r.Model)
  {
    node.right := r;
    node.Seal();
  }

  /** private_avl_get */
  method PrivateGet<K, T>(cmp: (K, K) -> int, current: Cell?<K, T>, k: K) returns (c: Cell?<K, T>)
    requires ValidTree(current)
    ensures c != null ==> c in Owned(current) && c.Valid()
    ensures ModelOf(c) == Find(cmp, ModelOf(current), k)
    decreases Owned(current)
  {
    if current == null {
      return null;
    }
    var res := cmp(k, current.data.key);
    if res < 0 {
      c := PrivateGet(cmp, current.left, k);
    } else if res > 0 {
      c := PrivateGet(cmp, current.right, k);
    } else {
      c := current;
    }
  }

  /** private_avl_print_client: the payloads in the order the callback sees them. */
  method PrivatePrintClient<K, T>(node: Cell?<K, T>, sent: seq<Entry<K, T>>) returns (out: seq<Entry<K, T>>)
    requires ValidTree(node)
    ensures out == sent + Inorder(ModelOf(node))
    decreases Owned(node)
  {
    out := sent;
    if node != null {
      out := PrivatePrintClient(node.left, out);
      out := out + [node.data];
      out := PrivatePrintClient(node.right, out);
    }
  }
}
