/** user_session_list: one session object per address, found again or created. */
module SessionStore {
  import opened Options
  import opened TreeModel
  import opened AvlTree
  import opened Comparators
  import opened ServerModel
  import opened UserStore
  import W = WrittenTree

  /** client_session_t. The address that keys it is never written. */
  class ClientSession {
    const address: Address
    var client: Client?
    var loggedIn: bool

    ghost function Value(): Session<Client>
      reads this
    {
      if client == null then Session(None, loggedIn)
      else
        var c: Client := client;
        Session(Some(c), loggedIn)
    }

    constructor (address: Address)
      ensures this.address == address && Value() == Session(None, false)
    {
      this.address, client, loggedIn := address, null, false;
    }
  }

  class SessionStore {
    const tree: AvlTree<Address, ClientSession>
    ghost var Objects: map<Address, ClientSession>     // what the tree holds
    ghost var View: map<Address, Session<Client>>      // the sessions as values
    ghost var Repr: set<object>

    ghost predicate Valid()
      reads this, Repr
      ensures Valid() ==> this in Repr
    {
      Sound() && View.Keys == Objects.Keys && forall a | a in Objects :: View[a] == Objects[a].Value()
    }

    /** Valid, but for View. */
    ghost predicate Sound()
      reads this, Repr
      ensures Sound() ==> this in Repr && forall a | a in Objects :: Owns(a, Objects[a])
    {
      && this in Repr && tree in Repr
      && tree.Repr <= Repr && this !in tree.Repr
      && tree.Valid() && tree.cmp == SessionCmp
      && Objects == Contents(tree.Model)
      && (forall a | a in Objects :: Owns(a, Objects[a]))
    }

    /** The session object of an address. */
    ghost predicate Owns(a: Address, x: ClientSession)
      reads this`Repr, tree
    {
      x.address == a && x in Repr && x !in tree.Repr && (x as object) != this
    }

    /** The tree is ordered by session_cmp. */
    constructor ()
      ensures Valid() && fresh(Repr) && View == map[]
    {
      SessionCmpIsOrder();
      var t := new AvlTree<Address, ClientSession>(SessionCmp);
      tree, Objects, View, Repr := t, map[], map[], {this} + t.Repr;
    }

    /** avl_get on the session tree. */
    method Get(a: Address) returns (x: ClientSession?)
      requires Valid()
      ensures if a in View then x != null && Holds(x) && x.address == a else x == null
    {
      SessionCmpIsOrder();
      var found := tree.Get(a);
      x := if found.None? then null else found.value;
    }

    /** A session object the tree holds. */
    ghost predicate Holds(x: ClientSession)
      reads this`Objects
    {
      x.address in Objects && Objects[x.address] == x
    }

    /** The insertion of init_client_session. */
    method Create(a: Address) returns (x: ClientSession)
      requires Valid() && a !in View
      modifies Repr
      ensures Valid() && fresh(Repr - old(Repr))
      ensures Holds(x) && x.address == a
      ensures View == old(View)[a := Session(None, false)] && Objects == old(Objects)[a := x]
    {
      x := new ClientSession(a);
      Insert(x);
    }

    method Insert(x: ClientSession)
      requires Valid() && x.address !in View && x !in Repr
      modifies Repr
      ensures Valid() && fresh(Repr - old(Repr) - {x})
      ensures Holds(x)
      ensures View == old(View)[x.address := old(x.Value())] && Objects == old(Objects)[x.address := x]
    {
      Plant(x);
      Enroll(x);
      Note(x);
    }

    /** The tree holds the session, but the ghost view does not know it yet. */
    ghost predicate Planted(x: ClientSession)
      reads this, Repr, tree, tree.Repr
    {
      && this in Repr && tree in Repr && this !in tree.Repr
      && tree.Valid() && tree.cmp == SessionCmp && x !in tree.Repr && (x as object) != this
      && Contents(tree.Model) == Objects[x.address := x]
      && forall a | a in Objects :: Owns(a, Objects[a])
    }

    method Plant(x: ClientSession)
      requires Valid() && x.address !in View && x !in Repr
      modifies tree.Repr
      ensures Planted(x) && fresh(tree.Repr - old(tree.Repr)) && x.Value() == old(x.Value())
      ensures forall a | a in Objects :: View[a] == Objects[a].Value()
    {
      ghost var t := tree.Model;
      assert forall a | a in Objects :: Owns(a, Objects[a]);
      SessionCmpIsOrder();
      var code := tree.Add(Entry(x.address, x));
      W.AddedNewKey(tree.cmp, t, Entry(x.address, x), tree.Model, code);
    }

    /** The ghost side of an insertion. */
    ghost method Enroll(x: ClientSession)
      requires Planted(x)
      modifies this`Objects, this`Repr
      ensures Sound() && Repr == old(Repr) + {x} + tree.Repr
      ensures Objects == old(Objects)[x.address := x]
    {
      Repr := Repr + {x} + tree.Repr;
      Objects := Objects[x.address := x];
      assert forall a | a in Objects :: Owns(a, Objects[a]);
    }

    /** init_client_session: looks the session up, and creates it at the first datagram. */
    method InitClientSession(from: Address) returns (x: ClientSession)
      requires Valid()
      modifies Repr
      ensures Valid() && fresh(Repr - old(Repr))
      ensures Holds(x) && x.address == from
      ensures View == if from in old(View) then old(View) else old(View)[from := Session(None, false)]
      ensures Objects == if from in old(Objects) then old(Objects) else old(Objects)[from := x]
    {
      var found := Get(from);
      if found != null {
        return found;
      }
      x := Create(from);
    }

    /** What a login writes into the session. */
    method Bind(x: ClientSession, c: Client)
      requires Valid() && Holds(x)
      modifies x, this`View
      ensures Valid() && View == old(View)[x.address := Session(Some(c), true)]
    {
      LogIn(x, c);
      Note(x);
    }

    method LogIn(x: ClientSession, c: Client)
      requires Sound() && Holds(x)
      modifies x
      ensures Sound() && x.Value() == Session(Some(c), true)
    {
      x.client := c;
      x.loggedIn := true;
    }

    ghost method Note(x: ClientSession)
      requires Sound() && Holds(x) && View.Keys + {x.address} == Objects.Keys
      requires forall a | a in View && a != x.address :: View[a] == Objects[a].Value()
      modifies this`View
      ensures Valid() && View == old(View)[x.address := x.Value()]
    {
      View := View[x.address := x.Value()];
    }
  }
}
