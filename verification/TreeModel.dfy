/** The values the trees of avl_tree.c stand for, shared by the tree as it is written
    and the tree as it is meant. */
module TreeModel {
  import opened Options

  /** What a node's data pointer gives its tree: the key fields the comparator reads
      through it, which no command ever writes, and the pointer itself. */
  datatype Entry<K, T> = Entry(key: K, payload: T)

  datatype Tree<K, T> =
    | Leaf
    | Node(left: Tree<K, T>, data: Entry<K, T>, height: int, right: Tree<K, T>)

  /** The reply codes AVL_OK, AVL_DUPLICATED_KEY and AVL_KEY_NOT_FOUND. */
  datatype Code = Ok | DuplicatedKey | KeyNotFound

  /** One call of avl_add or avl_remove. */
  datatype Operation<K, T> = AddEntry(entry: Entry<K, T>) | RemoveKey(key: K)

  /** The finite map a tree is for: an add keeps an existing key, a removal needs one. */
  function MapStep<K(==), T>(m: map<K, T>, op: Operation<K, T>): (map<K, T>, Code) {
    match op
    case AddEntry(e) => if e.key in m then (m, DuplicatedKey) else (m[e.key := e.payload], Ok)
    case RemoveKey(k) => if k in m then (m - {k}, Ok) else (m, KeyNotFound)
  }

  function MapRun<K(==), T>(ops: seq<Operation<K, T>>): map<K, T> {
    if ops == [] then map[] else MapStep(MapRun(ops[..|ops| - 1]), ops[|ops| - 1]).0
  }

  ghost predicate TotalOrder<K(!new)>(cmp: (K, K) -> int) {
    && (forall a, b {:trigger cmp(a, b)} :: cmp(a, b) == 0 <==> a == b)
    && (forall a, b {:trigger cmp(a, b)} :: cmp(a, b) < 0 <==> cmp(b, a) > 0)
    && (forall a, b, c {:trigger cmp(a, b), cmp(b, c)} :: cmp(a, b) < 0 && cmp(b, c) < 0 ==> cmp(a, c) < 0)
  }

  /** get_height: the stored height, 0 for NULL. */
  function Height<K, T>(t: Tree<K, T>): int {
    if t.Leaf? then 0 else t.height
  }

  /** get_balance, from stored heights. */
  function Balance<K, T>(t: Tree<K, T>): int {
    if t.Leaf? then 0 else Height(t.left) - Height(t.right)
  }

  /** The true height, whatever the nodes store. */
  function Depth<K, T>(t: Tree<K, T>): nat {
    if t.Leaf? then 0
    else if Depth(t.left) > Depth(t.right) then 1 + Depth(t.left)
    else 1 + Depth(t.right)
  }

  function Size<K, T>(t: Tree<K, T>): nat {
    if t.Leaf? then 0 else Size(t.left) + 1 + Size(t.right)
  }

  function Inorder<K, T>(t: Tree<K, T>): seq<Entry<K, T>> {
    if t.Leaf? then [] else Inorder(t.left) + [t.data] + Inorder(t.right)
  }

  function Contents<K(==), T>(t: Tree<K, T>): map<K, T> {
    if t.Leaf? then map[]
    else Contents(t.left)[t.data.key := t.data.payload] + Contents(t.right)
  }

  ghost predicate AllBelow<K, T>(cmp: (K, K) -> int, t: Tree<K, T>, k: K) {
    forall j | j in Contents(t) :: cmp(j, k) < 0
  }

  ghost predicate AllAbove<K, T>(cmp: (K, K) -> int, k: K, t: Tree<K, T>) {
    forall j | j in Contents(t) :: cmp(k, j) < 0
  }

  ghost predicate Ordered<K, T>(cmp: (K, K) -> int, t: Tree<K, T>) {
    t.Node? ==>
      && Ordered(cmp, t.left)
      && Ordered(cmp, t.right)
      && AllBelow(cmp, t.left, t.data.key)
      && AllAbove(cmp, t.data.key, t.right)
  }

  /** private_avl_get: the subtree whose root holds the key. */
  function Find<K, T>(cmp: (K, K) -> int, t: Tree<K, T>, k: K): Tree<K, T> {
    if t.Leaf? then Leaf
    else if cmp(k, t.data.key) < 0 then Find(cmp, t.left, k)
    else if cmp(k, t.data.key) > 0 then Find(cmp, t.right, k)
    else t
  }

  /** avl_get: the payload pointer stored for the key. */
  function Lookup<K, T>(cmp: (K, K) -> int, t: Tree<K, T>, k: K): Option<T> {
    var n := Find(cmp, t, k);
    if n.Leaf? then None else Some(n.data.payload)
  }

  /** How many nodes private_avl_get compares with the key. */
  function Probes<K, T>(cmp: (K, K) -> int, t: Tree<K, T>, k: K): nat {
    if t.Leaf? then 0
    else if cmp(k, t.data.key) < 0 then 1 + Probes(cmp, t.left, k)
    else if cmp(k, t.data.key) > 0 then 1 + Probes(cmp, t.right, k)
    else 1
  }

  lemma {:induction false} ProbesWithinDepth<K, T>(cmp: (K, K) -> int, t: Tree<K, T>, k: K)
    ensures Probes(cmp, t, k) <= Depth(t)
  {
    if t.Node? {
      ProbesWithinDepth(cmp, t.left, k);
      ProbesWithinDepth(cmp, t.right, k);
    }
  }

  /** A search finds a payload exactly for the keys the tree holds, and the right one. */
  lemma {:induction false} LookupReadsContents<K(!new), T>(cmp: (K, K) -> int, t: Tree<K, T>, k: K)
    requires TotalOrder(cmp) && Ordered(cmp, t)
    ensures Lookup(cmp, t, k) == if k in Contents(t) then Some(Contents(t)[k]) else None
    ensures k in Contents(t) ==> Find(cmp, t, k).Node? && Find(cmp, t, k).data == Entry(k, Contents(t)[k])
  {
    if t.Node? {
      LookupReadsContents(cmp, t.left, k);
      LookupReadsContents(cmp, t.right, k);
    }
  }

  ghost predicate Increasing<K, T>(cmp: (K, K) -> int, s: seq<Entry<K, T>>) {
    forall i, j | 0 <= i < j < |s| :: cmp(s[i].key, s[j].key) < 0
  }

  lemma {:induction false} InorderListsContents<K, T>(t: Tree<K, T>)
    ensures |Inorder(t)| == Size(t)
    ensures forall e | e in Inorder(t) :: e.key in Contents(t)
    ensures forall k | k in Contents(t) :: Entry(k, Contents(t)[k]) in Inorder(t)
  {
    if t.Node? {
      InorderListsContents(t.left);
      InorderListsContents(t.right);
      forall k | k in Contents(t)
        ensures Entry(k, Contents(t)[k]) in Inorder(t)
      {
        if k in Contents(t.right) {
          assert Entry(k, Contents(t.right)[k]) in Inorder(t.right);
        } else if k == t.data.key {
          assert Entry(k, Contents(t)[k]) == t.data;
        } else {
          assert Entry(k, Contents(t.left)[k]) in Inorder(t.left);
        }
      }
    }
  }

  lemma JoinIncreasing<K(!new), T>(cmp: (K, K) -> int, l: seq<Entry<K, T>>, d: Entry<K, T>, r: seq<Entry<K, T>>)
    requires TotalOrder(cmp) && Increasing(cmp, l) && Increasing(cmp, r)
    requires forall e | e in l :: cmp(e.key, d.key) < 0
    requires forall e | e in r :: cmp(d.key, e.key) < 0
    ensures Increasing(cmp, l + [d] + r)
  {
  }

  lemma {:induction false} InorderIncreasing<K(!new), T>(cmp: (K, K) -> int, t: Tree<K, T>)
    requires TotalOrder(cmp) && Ordered(cmp, t)
    ensures Increasing(cmp, Inorder(t))
  {
    if t.Node? {
      var l, r, d := Inorder(t.left), Inorder(t.right), t.data;
      InorderIncreasing(cmp, t.left);
      InorderIncreasing(cmp, t.right);
      InorderListsContents(t.left);
      InorderListsContents(t.right);
      JoinIncreasing(cmp, l, d, r);
    }
  }

  lemma DisjointUnionSize<K, T>(l: map<K, T>, k: K, v: T, r: map<K, T>)
    requires k !in l && k !in r && l.Keys !! r.Keys
    ensures |l[k := v] + r| == |l| + 1 + |r|
  {
  }

  lemma CountWith<K, T>(m: map<K, T>, k: K, v: T)
    ensures |m[k := v]| == if k in m then |m| else |m| + 1
  {
  }

  lemma CountWithout<K, T>(m: map<K, T>, k: K)
    ensures |m - {k}| == if k in m then |m| - 1 else |m|
  {
  }

  lemma RootSplitsKeys<K(!new), T>(cmp: (K, K) -> int, t: Tree<K, T>)
    requires TotalOrder(cmp) && Ordered(cmp, t) && t.Node?
    ensures t.data.key !in Contents(t.left) && t.data.key !in Contents(t.right)
    ensures Contents(t.left).Keys !! Contents(t.right).Keys
  {
  }

  lemma {:induction false} SizeCountsKeys<K(!new), T>(cmp: (K, K) -> int, t: Tree<K, T>)
    requires TotalOrder(cmp) && Ordered(cmp, t)
    ensures |Contents(t)| == Size(t)
  {
    if t.Node? {
      SizeCountsKeys(cmp, t.left);
      SizeCountsKeys(cmp, t.right);
      RootSplitsKeys(cmp, t);
      DisjointUnionSize(Contents(t.left), t.data.key, t.data.payload, Contents(t.right));
    }
  }

  lemma {:induction false} InorderPayloads<K(!new), T>(cmp: (K, K) -> int, t: Tree<K, T>)
    requires TotalOrder(cmp) && Ordered(cmp, t)
    ensures forall e | e in Inorder(t) :: e.key in Contents(t) && Contents(t)[e.key] == e.payload
  {
    if t.Node? {
      InorderPayloads(cmp, t.left);
      InorderPayloads(cmp, t.right);
      RootSplitsKeys(cmp, t);
    }
  }

  /** The traversals behind LIST and the rewrite meet every record exactly once, in
      strictly increasing key order. */
  lemma TraversalCorrect<K(!new), T>(cmp: (K, K) -> int, t: Tree<K, T>)
    requires TotalOrder(cmp) && Ordered(cmp, t)
    ensures Increasing(cmp, Inorder(t))
    ensures |Inorder(t)| == |Contents(t)|
    ensures forall e :: e in Inorder(t) <==> e.key in Contents(t) && Contents(t)[e.key] == e.payload
  {
    InorderIncreasing(cmp, t);
    SizeCountsKeys(cmp, t);
    InorderPayloads(cmp, t);
    InorderListsContents(t);
    forall e: Entry<K, T> | e.key in Contents(t) && Contents(t)[e.key] == e.payload
      ensures e in Inorder(t)
    {
      assert e == Entry(e.key, Contents(t)[e.key]);
    }
  }
}
