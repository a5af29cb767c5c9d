/** group_list, the address pool and current_group. */
module GroupStore {
  import opened Options
  import opened TreeModel
  import opened AvlTree
  import opened Comparators
  import W = WrittenTree

  class GroupStore {
    const tree: AvlTree<string, string>
    var currentGroup: nat
    const pool: seq<string>
    ghost var View: map<string, string> // group names and their addresses
    ghost var Repr: set<object>

    ghost predicate Valid()
      reads this, Repr
      ensures Valid() ==> this in Repr
    {
      && this in Repr && tree in Repr
      && tree.Repr <= Repr && this !in tree.Repr
      && tree.Valid() && tree.cmp == GroupCmp
      && View == Contents(tree.Model)
    }

    /** The tree is ordered by group_cmp. */
    constructor (pool: seq<string>)
      ensures Valid() && fresh(Repr) && View == map[] && currentGroup == 0 && this.pool == pool
    {
      GroupCmpIsOrder();
      var t := new AvlTree<string, string>(GroupCmp);
      this.pool, currentGroup, tree, View, Repr := pool, 0, t, map[], {this} + t.Repr;
    }

    /** avl_get on the group tree. */
    method Get(name: string) returns (ip: Option<string>)
      requires Valid()
      ensures ip == if name in View then Some(View[name]) else None
    {
      GroupCmpIsOrder();
      ip := tree.Get(name);
    }

    /** avl_add on the group tree, for a name it does not hold. */
    method Insert(name: string, ip: string)
      requires Valid() && name !in View
      modifies Repr
      ensures Valid() && fresh(Repr - old(Repr))
      ensures View == old(View)[name := ip] && currentGroup == old(currentGroup)
    {
      ghost var t := tree.Model;
      GroupCmpIsOrder();
      var code := tree.Add(Entry(name, ip));
      W.AddedNewKey(tree.cmp, t, Entry(name, ip), tree.Model, code);
      Adopt();
    }

    ghost method Adopt()
      requires this in Repr && tree in Repr && this !in tree.Repr
      requires tree.Valid() && tree.cmp == GroupCmp
      modifies this`Repr, this`View
      ensures Valid() && Repr == old(Repr) + tree.Repr && View == Contents(tree.Model)
    {
      View := Contents(tree.Model);
      Repr := Repr + tree.Repr;
    }

    /** The next address of the pool goes to a new group. */
    method Create(name: string) returns (ip: string)
      requires Valid() && name !in View && currentGroup < |pool|
      modifies Repr
      ensures Valid() && fresh(Repr - old(Repr))
      ensures ip == pool[old(currentGroup)] && currentGroup == old(currentGroup) + 1
      ensures View == old(View)[name := ip]
    {
      ip := pool[currentGroup];
      Advance();
      Insert(name, ip);
    }

    method Advance()
      requires Valid()
      modifies this`currentGroup
      ensures Valid() && currentGroup == old(currentGroup) + 1 && View == old(View)
    {
      currentGroup := currentGroup + 1;
    }
  }
}
