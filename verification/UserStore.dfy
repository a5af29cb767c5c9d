/** user_list and the records file behind it: the tree of user records, the blocks its
    payloads live in, and the bytes written to the file. */
module UserStore {
  import opened Options
  import opened TreeModel
  import opened AvlNode
  import opened AvlTree
  import opened Comparators
  import opened ServerModel
  import PlainTree
  import W = WrittenTree

  /** client_t. The name that keys it, the password and the permissions are never written. */
  class Client {
    const username: string
    const password: string
    const clientServer: int
    const p2p: int
    const group: int
    var ip: string
    var port: int

    ghost function Value(): Record
      reads this
    {
      Record(username, password, ip, port, clientServer, p2p, group)
    }

    /** new_client, or a record read from the file. */
    constructor (r: Record)
      ensures Value() == r
    {
      username, password, ip, port := r.username, r.password, r.ip, r.port;
      clientServer, p2p, group := r.clientServer, r.p2p, r.group;
    }

    /** A block nothing is stored in. */
    ghost constructor Unused()
      ensures Value() == Record("", "", "", 0, 0, 0, 0)
    {
      username, password, ip, port, clientServer, p2p, group := "", "", "", 0, 0, 0, 0;
    }

    /** The bytes that write() puts into the file. */
    method Bytes() returns (r: Record)
      ensures r == Value()
    {
      r := Record(username, password, ip, port, clientServer, p2p, group);
    }
  }

  /** What one avl_add means for the user tree. */
  lemma AddedUser<P>(t: Tree<string, P>, e: Entry<string, P>, u: Tree<string, P>, code: Code)
    requires W.Sound(DataCmp, t) && W.Step(DataCmp, t, AddEntry(e)) == (Some(u), code)
    ensures code == if e.key in Contents(t) then DuplicatedKey else Ok
    ensures PlainTree.Erase(u) ==
            if code == Ok then PlainTree.Add(DataCmp, PlainTree.Erase(t), e) else PlainTree.Erase(t)
    ensures Contents(u) == if code == Ok then Contents(t)[e.key := e.payload] else Contents(t)
    ensures Contents(PlainTree.Erase(t)) == Contents(t)
  {
    DataCmpIsOrder();
    W.StepLaw(DataCmp, t, AddEntry(e));
    W.StepIsPlain(DataCmp, t, AddEntry(e));
    PlainTree.EraseKeepsMeaning(DataCmp, t);
  }

  lemma RemovedUser<P>(t: Tree<string, P>, name: string, u: Tree<string, P>, code: Code)
    requires W.Sound(DataCmp, t) && W.Step(DataCmp, t, RemoveKey(name)) == (Some(u), code)
    ensures code == if name in Contents(t) then Ok else KeyNotFound
    ensures PlainTree.Erase(u) ==
            if code == Ok then PlainTree.Remove(DataCmp, PlainTree.Erase(t), name) else PlainTree.Erase(t)
    ensures forall k | k in Contents(u) :: k in Contents(t) && Contents(u)[k] == Contents(t)[k]
    ensures Contents(PlainTree.Erase(t)) == Contents(t)
  {
    DataCmpIsOrder();
    W.StepLaw(DataCmp, t, RemoveKey(name));
    W.StepIsPlain(DataCmp, t, RemoveKey(name));
    PlainTree.EraseKeepsMeaning(DataCmp, t);
  }

  lemma {:induction false} SnapshotJoins<P>(
    store: map<P, Record>, a: seq<Entry<string, P>>, e: Entry<string, P>, b: seq<Entry<string, P>>)
    ensures Snapshot(store, a + [e] + b) == Snapshot(store, a) + [Read(store, e.payload)] + Snapshot(store, b)
  {
    if a == [] {
      assert (a + [e] + b)[1..] == b;
    } else {
      SnapshotJoins(store, a[1..], e, b);
      assert (a + [e] + b)[1..] == a[1..] + [e] + b;
    }
  }

  lemma SnapshotOfNode<P>(store: map<P, Record>, t: Tree<string, P>, was: seq<Record>)
    requires t.Node?
    ensures was + Snapshot(store, Inorder(t.left)) + [Read(store, t.data.payload)] + Snapshot(store, Inorder(t.right))
            == was + Snapshot(store, Inorder(t))
  {
    SnapshotJoins(store, Inorder(t.left), t.data, Inorder(t.right));
  }

  lemma SnapshotGrows<P>(store: map<P, Record>, entries: seq<Entry<string, P>>, i: nat)
    requires i < |entries|
    ensures Snapshot(store, entries[..i + 1]) == Snapshot(store, entries[..i]) + [Read(store, entries[i].payload)]
  {
    SnapshotJoins(store, entries[..i], entries[i], []);
    assert entries[..i] + [entries[i]] + [] == entries[..i + 1];
  }

  class UserStore {
    const tree: AvlTree<string, Client>
    var file: seq<Record>
    ghost var Users: Tree<string, Client>    // the tree without its heights
    ghost var Records: map<Client, Record>   // every payload ever allocated: none is freed
    ghost var Repr: set<object>

    ghost predicate Valid()
      reads this, Repr
      ensures Valid() ==> this in Repr
    {
      Sound() && Users == PlainTree.Erase(tree.Model)
    }

    /** Valid, but for what Users says. */
    ghost predicate Sound()
      reads this, Repr
      ensures Sound() ==> this in Repr
    {
      && this in Repr && tree in Repr
      && tree.Repr <= Repr && this !in tree.Repr
      && (forall c: object | c in Records.Keys :: c in Repr && c !in tree.Repr && c != this)
      && tree.Valid() && tree.cmp == DataCmp
      && (forall c | c in Records :: Records[c] == c.Value())
      && (forall k | k in Contents(tree.Model) :: Contents(tree.Model)[k] in Records)
    }

    /** The open file keeps what it holds. */
    constructor (file: seq<Record>)
      ensures Valid() && fresh(Repr)
      ensures Users == Leaf && Records == map[] && this.file == file
    {
      DataCmpIsOrder();
      var t := new AvlTree<string, Client>(DataCmp);
      tree, this.file, Users, Records, Repr := t, file, Leaf, map[], {this} + t.Repr;
    }

    /** avl_add on the user tree, without the write. */
    method Insert(c: Client) returns (code: Code)
      requires Valid() && c !in Repr
      modifies Repr
      ensures Valid() && fresh(Repr - old(Repr) - {c}) && old(Repr) + {c} <= Repr
      ensures code == if c.username in Contents(old(Users)) then DuplicatedKey else Ok
      ensures Users == if code == Ok then PlainTree.Add(DataCmp, old(Users), Entry(c.username, c)) else old(Users)
      ensures Records == if code == Ok then old(Records)[c := old(c.Value())] else old(Records)
      ensures file == old(file)
    {
      code := Plant(c);
      Adopt(c, code);
    }

    /** The tree holds the payload, but the ghost view does not know it yet. */
    ghost predicate Planted(c: Client, code: Code)
      reads this, Repr, tree, tree.Repr
    {
      && this in Repr && tree in Repr && this !in tree.Repr
      && (forall b: object | b in Records.Keys :: b in Repr && b !in tree.Repr && b != this)
      && (forall b | b in Records :: b in Repr && Records[b] == b.Value())
      && tree.Valid() && tree.cmp == DataCmp && c !in tree.Repr
      && forall k | k in Contents(tree.Model) ::
           Contents(tree.Model)[k] in Records || (code == Ok && Contents(tree.Model)[k] == c)
    }

    method Plant(c: Client) returns (code: Code)
      requires Valid() && c !in Repr
      modifies tree.Repr
      ensures Planted(c, code) && fresh(tree.Repr - old(tree.Repr)) && c.Value() == old(c.Value())
      ensures code == if c.username in Contents(Users) then DuplicatedKey else Ok
      ensures PlainTree.Erase(tree.Model) ==
              if code == Ok then PlainTree.Add(DataCmp, Users, Entry(c.username, c)) else Users
    {
      ghost var t := tree.Model;
      code := AddToTree(Entry(c.username, c));
      AddedUser(t, Entry(c.username, c), tree.Model, code);
    }

    method AddToTree(e: Entry<string, Client>) returns (code: Code)
      requires tree.Valid() && tree.cmp == DataCmp
      modifies tree.Repr
      ensures tree.Valid() && fresh(tree.Repr - old(tree.Repr)) && W.Sound(DataCmp, old(tree.Model))
      ensures (Some(tree.Model), code) == W.Step(DataCmp, old(tree.Model), AddEntry(e))
    {
      DataCmpIsOrder();
      code := tree.Add(e);
    }

    /** The ghost side of an insertion. */
    ghost method Adopt(c: Client, code: Code)
      requires Planted(c, code)
      modifies this`Users, this`Records, this`Repr
      ensures Valid() && Repr == old(Repr) + {c} + tree.Repr
      ensures Users == PlainTree.Erase(tree.Model)
      ensures Records == if code == Ok then old(Records)[c := c.Value()] else old(Records)
    {
      if code == Ok {
        Records := Records[c := c.Value()];
      }
      Users := PlainTree.Erase(tree.Model);
      Repr := Repr + {c} + tree.Repr;
    }

    /** avl_remove on the user tree, without the rewrite. The payload stays allocated. */
    method Remove(name: string) returns (code: Code)
      requires Valid()
      modifies Repr
      ensures Valid() && Repr == old(Repr)
      ensures code == if name in Contents(old(Users)) then Ok else KeyNotFound
      ensures Users == if code == Ok then PlainTree.Remove(DataCmp, old(Users), name) else old(Users)
      ensures Records == old(Records) && file == old(file)
    {
      code := Prune(name);
      Users := PlainTree.Erase(tree.Model);
    }

    method Prune(name: string) returns (code: Code)
      requires Valid()
      modifies tree.Repr
      ensures Sound()
      ensures code == if name in Contents(Users) then Ok else KeyNotFound
      ensures PlainTree.Erase(tree.Model) == if code == Ok then PlainTree.Remove(DataCmp, Users, name) else Users
    {
      ghost var t := tree.Model;
      DataCmpIsOrder();
      code := tree.Remove(name);
      RemovedUser(t, name, tree.Model, code);
    }

    /** avl_get on the user tree. */
    method Get(name: string) returns (c: Client?)
      requires Valid()
      ensures c != null ==> c in Records && Records[c] == c.Value()
      ensures if name in Contents(Users) then c != null && c == Contents(Users)[name] else c == null
    {
      PlainTree.EraseKeepsMeaning(DataCmp, tree.Model);
      DataCmpIsOrder();
      var found := tree.Get(name);
      c := if found.None? then null else found.value;
    }

    /** write() to a file opened for appending. */
    method Write(r: Record)
      requires Valid()
      modifies this`file
      ensures Valid() && file == old(file) + [r]
    {
      file := file + [r];
    }

    /** private_avl_rewrite */
    method PrivateRewrite(current: Cell?<string, Client>)
      requires ValidTree(current) && Allocated(ModelOf(current))
      requires forall c | c in Records :: Records[c] == c.Value()
      modifies this`file
      ensures file == old(file) + Snapshot(Records, Inorder(ModelOf(current)))
      decreases Owned(current)
    {
      if current == null {
        return;
      }
      ghost var t, was := current.Model, file;
      SubtreesAllocated(t);
      PrivateRewrite(current.left);
      var r := current.data.payload.Bytes();
      file := file + [r];
      PrivateRewrite(current.right);
      SnapshotOfNode(Records, t, was);
    }

    ghost predicate Allocated(t: Tree<string, Client>)
      reads this`Records
    {
      forall e | e in Inorder(t) :: e.payload in Records
    }

    lemma SubtreesAllocated(t: Tree<string, Client>)
      requires t.Node? && Allocated(t)
      ensures Allocated(t.left) && t.data.payload in Records && Allocated(t.right)
    {
    }

    /** ftruncate, and then the records of the tree in order. */
    method Rewrite()
      requires Valid()
      modifies this`file
      ensures Valid() && file == Snapshot(Records, Inorder(Users))
    {
      PayloadsAllocated();
      file := [];
      PrivateRewrite(tree.root);
    }

    /** LIST: the records send_to_client is called with. */
    method ListUsers() returns (records: seq<Record>)
      requires Valid()
      ensures records == Snapshot(Records, Inorder(Users))
    {
      PayloadsAllocated();
      var entries := PrivatePrintClient(tree.root, []);
      records := [];
      for i := 0 to |entries|
        invariant records == Snapshot(Records, entries[..i])
      {
        assert entries[i] in entries;
        SnapshotGrows(Records, entries, i);
        var r := entries[i].payload.Bytes();
        records := records + [r];
      }
      assert entries[..|entries|] == entries;
    }

    lemma PayloadsAllocated()
      requires Valid()
      ensures Allocated(tree.Model)
      ensures Inorder(Users) == Inorder(tree.Model)
    {
      DataCmpIsOrder();
      PlainTree.EraseKeepsMeaning(DataCmp, tree.Model);
      InorderPayloads(DataCmp, tree.Model);
    }

    /** What a login writes into the record it is for. */
    method NoteLogin(c: Client, ip: string, port: int)
      requires Valid() && c in Records
      modifies c, this`Records
      ensures Valid() && Records == old(Records)[c := old(Records[c]).(port := port, ip := ip)]
    {
      c.port := port;
      c.ip := ip;
      Records := Records[c := c.Value()];
    }
  }
}
