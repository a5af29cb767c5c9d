/** The records file agrees with the user tree after every step of every run. */
module Persistence {
  import opened Options
  import opened TreeModel
  import opened Comparators
  import opened Protocol
  import opened ServerModel
  import PlainTree

  /** What replaying a file is meant to give: the first record of each name. */
  function FirstByName(file: seq<Record>): map<string, Record> {
    if file == [] then map[]
    else
      var m, r := FirstByName(file[..|file| - 1]), file[|file| - 1];
      if r.username in m then m else m[r.username := r]
  }

  predicate DistinctNames(file: seq<Record>) {
    forall i, j | 0 <= i < j < |file| :: file[i].username != file[j].username
  }

  /** A record without its port: login changes the port and does not write it. */
  function Forget(r: Record): Record {
    r.(port := 0)
  }

  /** The records in memory, by name. */
  function InMemory<P(==)>(s: State<P>): map<string, Record> {
    map k | k in Contents(s.users) :: At(s, Contents(s.users)[k])
  }

  ghost predicate SameUsers(a: map<string, Record>, b: map<string, Record>) {
    a.Keys == b.Keys && forall k | k in a :: Forget(a[k]) == Forget(b[k])
  }

  ghost predicate FileAgrees<P>(s: State<P>) {
    SameUsers(FirstByName(s.file), InMemory(s))
  }

  lemma {:induction false} NamesOfFile(file: seq<Record>)
    ensures forall r | r in file :: r.username in FirstByName(file)
    ensures forall k | k in FirstByName(file) :: FirstByName(file)[k] in file && FirstByName(file)[k].username == k
  {
    if file != [] {
      NamesOfFile(file[..|file| - 1]);
      assert file == file[..|file| - 1] + [file[|file| - 1]];
    }
  }

  /** Replay gives exactly the first record of each name. */
  lemma {:induction false} LoadGivesFirst<P>(file: seq<Record>, blocks: seq<P>)
    requires |blocks| == |file| && Distinct(blocks)
    ensures var (users, store) := Load(file, blocks);
            && Contents(users).Keys == FirstByName(file).Keys
            && forall k | k in Contents(users) ::
                 Contents(users)[k] in store && store[Contents(users)[k]] == FirstByName(file)[k]
  {
    if file != [] {
      var n := |file| - 1;
      LoadGivesFirst(file[..n], blocks[..n]);
      LoadIsSound(file[..n], blocks[..n]);
      var (users, store) := Load(file[..n], blocks[..n]);
      UsersAfterAdd(users, Entry(file[n].username, blocks[n]));
      assert blocks[n] !in blocks[..n];
    }
  }

  lemma {:induction false} SnapshotAt<P>(store: map<P, Record>, entries: seq<Entry<string, P>>)
    ensures |Snapshot(store, entries)| == |entries|
    ensures forall i | 0 <= i < |entries| :: Snapshot(store, entries)[i] == Read(store, entries[i].payload)
  {
    if entries != [] {
      SnapshotAt(store, entries[1..]);
    }
  }

  /** With distinct names, the first record of a name is its only record. */
  lemma {:induction false} OnlyIsFirst(file: seq<Record>)
    requires DistinctNames(file)
    ensures forall i | 0 <= i < |file| ::
              file[i].username in FirstByName(file) && FirstByName(file)[file[i].username] == file[i]
  {
    if file != [] {
      var init := file[..|file| - 1];
      OnlyIsFirst(init);
      NamesOfFile(init);
      forall i | 0 <= i < |file|
        ensures file[i].username in FirstByName(file) && FirstByName(file)[file[i].username] == file[i]
      {
        if i < |init| {
          assert file[i] == init[i];
        }
      }
    }
  }

  lemma AppendNew(file: seq<Record>, r: Record)
    requires r.username !in FirstByName(file)
    ensures FirstByName(file + [r]) == FirstByName(file)[r.username := r]
    ensures DistinctNames(file) ==> DistinctNames(file + [r])
  {
  }

  lemma SameWithNew(a: map<string, Record>, b: map<string, Record>, k: string, r: Record)
    requires SameUsers(a, b)
    ensures SameUsers(a[k := r], b[k := r])
  {
  }

  lemma AddToMemory<P>(s: State<P>, r: Record, block: P)
    requires Inv(s) && block !in s.store && r.username !in Contents(s.users)
    ensures InMemory(AddUser(s, r, block).0) == InMemory(s)[r.username := r]
  {
    UsersAfterAdd(s.users, Entry(r.username, block));
  }

  lemma AddKeepsAgreement<P>(s: State<P>, r: Record, block: P)
    requires Inv(s) && FileAgrees(s) && block !in s.store
    ensures FileAgrees(AddUser(s, r, block).0)
    ensures DistinctNames(s.file) ==> DistinctNames(AddUser(s, r, block).0.file)
  {
    if r.username !in Contents(s.users) {
      AddToMemory(s, r, block);
      AppendNew(s.file, r);
      SameWithNew(FirstByName(s.file), InMemory(s), r.username, r);
    }
  }

  /** The names stand in dictionary order, each once. */
  ghost predicate KeysIncrease<P>(users: seq<Entry<string, P>>) {
    forall i, j | 0 <= i < j < |users| :: Before(users[i].key, users[j].key)
  }

  lemma IncreasingIsAlphabetical<P>(users: seq<Entry<string, P>>)
    ensures Increasing(DataCmp, users) <==> KeysIncrease(users)
  {
    forall i, j | 0 <= i < j < |users|
      ensures DataCmp(users[i].key, users[j].key) < 0 <==> Before(users[i].key, users[j].key)
    {
      StrCmpIsDictionaryOrder(users[i].key, users[j].key);
    }
  }

  /** What the traversal of the user tree meets. */
  lemma UsersInOrder<P>(users: Tree<string, P>)
    requires Ordered(DataCmp, users)
    ensures KeysIncrease(Inorder(users)) && |Inorder(users)| == |Contents(users)|
    ensures forall e | e in Inorder(users) :: e.key in Contents(users) && Contents(users)[e.key] == e.payload
    ensures forall k | k in Contents(users) :: Entry(k, Contents(users)[k]) in Inorder(users)
  {
    DataCmpIsOrder();
    InorderIncreasing(DataCmp, users);
    IncreasingIsAlphabetical(Inorder(users));
    SizeCountsKeys(DataCmp, users);
    InorderPayloads(DataCmp, users);
    InorderListsContents(users);
  }

  /** The records stand in strictly increasing dictionary order of names. */
  ghost predicate NamesIncrease(file: seq<Record>) {
    forall i, j | 0 <= i < j < |file| :: Before(file[i].username, file[j].username)
  }

  lemma IncreasingNamesDiffer(file: seq<Record>)
    requires NamesIncrease(file)
    ensures DistinctNames(file)
  {
    forall i, j | 0 <= i < j < |file|
      ensures file[i].username != file[j].username
    {
      StrCmpIsDictionaryOrder(file[i].username, file[j].username);
    }
  }

  /** The file is the list of these records of the user tree. */
  ghost predicate Lists<P>(t: State<P>, entries: seq<Entry<string, P>>) {
    && |t.file| == |entries|
    && forall i | 0 <= i < |entries| ::
         && entries[i].key in InMemory(t) && InMemory(t)[entries[i].key] == t.file[i]
         && t.file[i].username == entries[i].key
  }

  lemma SnapshotLists<P>(t: State<P>, entries: seq<Entry<string, P>>)
    requires Inv(t) && t.file == Snapshot(t.store, entries)
    requires forall e | e in entries :: e.key in Contents(t.users) && Contents(t.users)[e.key] == e.payload
    ensures Lists(t, entries)
  {
    SnapshotAt(t.store, entries);
    assert forall i | 0 <= i < |entries| :: entries[i] in entries;
  }

  lemma ListedIsFirst<P>(t: State<P>, entries: seq<Entry<string, P>>)
    requires Lists(t, entries) && DistinctNames(t.file)
    requires forall k | k in Contents(t.users) :: Entry(k, Contents(t.users)[k]) in entries
    ensures FirstByName(t.file) == InMemory(t)
  {
    OnlyIsFirst(t.file);
    forall k | k in InMemory(t)
      ensures k in FirstByName(t.file) && FirstByName(t.file)[k] == InMemory(t)[k]
    {
      var i :| 0 <= i < |entries| && entries[i] == Entry(k, Contents(t.users)[k]);
      assert t.file[i].username == k;
    }
    FirstIsListed(t, entries);
  }

  lemma FirstIsListed<P>(t: State<P>, entries: seq<Entry<string, P>>)
    requires Lists(t, entries)
    ensures forall k | k in FirstByName(t.file) :: k in InMemory(t)
  {
    NamesOfFile(t.file);
    forall k | k in FirstByName(t.file)
      ensures k in InMemory(t)
    {
      var i :| 0 <= i < |t.file| && t.file[i] == FirstByName(t.file)[k];
      assert entries[i].key == k;
    }
  }

  /** A removal leaves one record per user in the file, in strictly increasing order of names,
      whatever was there. */
  lemma DelCompacts<P>(s: State<P>, name: string)
    requires Inv(s) && UserNamed(s, name).Some?
    ensures var t := DelUser(s, name).0;
            && FirstByName(t.file) == InMemory(t) && |t.file| == |Contents(t.users)|
            && NamesIncrease(t.file) && DistinctNames(t.file)
  {
    var t := DelUser(s, name).0;
    var entries := Inorder(t.users);
    DelUserKeepsInv(s, name);
    UsersInOrder(t.users);
    SnapshotLists(t, entries);
    IncreasingNamesDiffer(t.file);
    ListedIsFirst(t, entries);
  }

  lemma {:induction false} ListingAt(records: seq<Record>)
    ensures |Listing(records)| == |records|
    ensures forall i | 0 <= i < |records| :: Listing(records)[i] == ToSender(User(records[i].username))
  {
    if records != [] {
      ListingAt(records[1..]);
    }
  }

  lemma ListingOfEntries<P>(s: State<P>, users: seq<Entry<string, P>>)
    requires Inv(s)
    requires forall e | e in users :: e.key in Contents(s.users) && Contents(s.users)[e.key] == e.payload
    ensures var out := Listing(Snapshot(s.store, users));
            |out| == |users| && forall i | 0 <= i < |out| :: out[i] == ToSender(User(users[i].key))
  {
  }

  /** One answer for each user, in strictly increasing dictionary order of names. */
  ghost predicate NamesUsers<P>(s: State<P>, out: seq<Output>) {
    && |out| == |Contents(s.users)|
    && (forall o | o in out :: o.ToSender? && o.reply.User? && o.reply.username in Contents(s.users))
    && (forall i, j | 0 <= i < j < |out| :: Before(out[i].reply.username, out[j].reply.username))
    && (forall k | k in Contents(s.users) :: ToSender(User(k)) in out)
  }

  /** LIST names every user exactly once, in that order. */
  lemma ListNamesEachUserOnce<P>(s: State<P>, block: P, junk: int)
    requires Inv(s)
    ensures var (t, out) := AdminStep(s, List, block, junk); t == s && NamesUsers(s, out)
  {
    var users, out := Inorder(s.users), AdminStep(s, List, block, junk).1;
    UsersInOrder(s.users);
    ListingOfEntries(s, users);
    ListedNames(s, users, out);
    forall k | k in Contents(s.users)
      ensures ToSender(User(k)) in out
    {
      EntryIsListed(out, users, Entry(k, Contents(s.users)[k]));
    }
  }

  lemma ListedNames<P>(s: State<P>, users: seq<Entry<string, P>>, out: seq<Output>)
    requires |out| == |users| && forall i | 0 <= i < |out| :: out[i] == ToSender(User(users[i].key))
    requires KeysIncrease(users) && forall e | e in users :: e.key in Contents(s.users)
    ensures forall o | o in out :: o.ToSender? && o.reply.User? && o.reply.username in Contents(s.users)
    ensures forall i, j | 0 <= i < j < |out| :: Before(out[i].reply.username, out[j].reply.username)
  {
    forall o | o in out
      ensures o.ToSender? && o.reply.User? && o.reply.username in Contents(s.users)
    {
      var i :| 0 <= i < |out| && out[i] == o;
      assert users[i] in users;
    }
  }

  lemma EntryIsListed<P>(out: seq<Output>, users: seq<Entry<string, P>>, e: Entry<string, P>)
    requires e in users && |out| == |users|
    requires forall i | 0 <= i < |out| :: out[i] == ToSender(User(users[i].key))
    ensures ToSender(User(e.key)) in out
  {
  }

  /** DEL answers that the user is deleted, but the user is gone from memory and file if and
      only if the user's node had at most one child. */
  lemma DelDeletesIff<P>(s: State<P>, name: string)
    requires Inv(s) && UserNamed(s, name).Some?
    ensures var (t, out) := DelUser(s, name);
            && out == [ToSender(UserDeleted(name))]
            && (UserNamed(t, name).None? <==> PlainTree.HasSpareChild(Find(DataCmp, s.users, name)))
            && (name !in FirstByName(t.file) <==> UserNamed(t, name).None?)
            && (UserNamed(t, name).Some? ==> InMemory(t) == InMemory(s))
  {
    UsersAfterRemove(s.users, name);
    DelCompacts(s, name);
  }

  lemma LoginKeepsAgreement<P>(s: State<P>, from: Address, args: Option<(string, string)>)
    requires Inv(s) && FileAgrees(s)
    ensures FileAgrees(LoginStep(s, from, args).0)
  {
  }

  lemma AdminKeepsAgreement<P>(s: State<P>, command: AdminCommand, block: P, junk: int)
    requires Inv(s) && FileAgrees(s) && block !in s.store
    ensures FileAgrees(AdminStep(s, command, block, junk).0)
    ensures DistinctNames(s.file) ==> DistinctNames(AdminStep(s, command, block, junk).0.file)
  {
    match command
    case Add(Some(u)) => AddKeepsAgreement(s, NewRecord(u, junk), block);
    case Del(Some(name)) =>
      if UserNamed(s, name).Some? {
        DelCompacts(s, name);
      }
    case _ =>
  }

  lemma CommandKeepsAgreement<P>(s: State<P>, from: Address, command: ClientCommand)
    requires Inv(s) && FileAgrees(s)
    ensures FileAgrees(CommandStep(s, from, command).0) && CommandStep(s, from, command).0.file == s.file
  {
    match command
    case Login(args) => LoginKeepsAgreement(s, from, args);
    case CreateMulticast(group) => SameMemory(s, CreateStep(s, from, group).0);
    case _ =>
  }

  lemma SameMemory<P>(s: State<P>, t: State<P>)
    requires t.users == s.users && t.store == s.store
    ensures InMemory(t) == InMemory(s)
  {
  }

  lemma StepKeepsAgreement<P>(s: State<P>, e: Event<P>)
    requires Inv(s) && FileAgrees(s) && (e.Admin? ==> e.block !in s.store)
    ensures FileAgrees(Step(s, e).0)
    ensures DistinctNames(s.file) ==> DistinctNames(Step(s, e).0.file)
  {
    match e
    case Admin(line, block, junk) => AdminKeepsAgreement(s, ParseAdmin(line), block, junk);
    case Datagram(from, text) =>
      ArriveKeeps(s, from);
      CommandKeepsAgreement(Arrive(s, from), from, ParseClient(text));
  }

  lemma ArriveKeeps<P>(s: State<P>, from: Address)
    requires Inv(s) && FileAgrees(s)
    ensures Inv(Arrive(s, from)) && FileAgrees(Arrive(s, from)) && Arrive(s, from).file == s.file
  {
  }

  /** After every run from start-up the file and memory name the same users with the same
      records, ports aside; a file of distinct names stays one. */
  lemma {:induction false} FileAgreesAlways<P>(
    file: seq<Record>, pool: seq<string>, blocks: seq<P>, events: seq<Event<P>>)
    requires |blocks| == |file| && Distinct(blocks) && FreshRun(Start(file, pool, blocks), events)
    ensures var s := Run(Start(file, pool, blocks), events);
            Inv(s) && FileAgrees(s) && (DistinctNames(file) ==> DistinctNames(s.file))
  {
    var s0 := Start(file, pool, blocks);
    StartIsSound(file, pool, blocks);
    if events == [] {
      LoadGivesFirst(file, blocks);
    } else {
      var init := events[..|events| - 1];
      FileAgreesAlways(file, pool, blocks, init);
      RunKeepsInv(s0, events);
      StepKeepsAgreement(Run(s0, init), events[|events| - 1]);
    }
  }

  /** Restarting from the file brings back the users the server knew. */
  lemma RestartRecovers<P>(file: seq<Record>, pool: seq<string>, blocks: seq<P>, events: seq<Event<P>>, again: seq<P>)
    requires |blocks| == |file| && Distinct(blocks) && FreshRun(Start(file, pool, blocks), events)
    requires |again| == |Run(Start(file, pool, blocks), events).file| && Distinct(again)
    ensures var s := Run(Start(file, pool, blocks), events);
            SameUsers(InMemory(Start(s.file, pool, again)), InMemory(s))
  {
    FileAgreesAlways(file, pool, blocks, events);
    var s := Run(Start(file, pool, blocks), events);
    LoadGivesFirst(s.file, again);
    assert InMemory(Start(s.file, pool, again)) == FirstByName(s.file);
  }

  // ---- What a pointer to a record stands for ----

  lemma AdminKeepsRecords<P>(s: State<P>, command: AdminCommand, block: P, junk: int, p: P)
    requires p in s.store && block !in s.store
    ensures var t := AdminStep(s, command, block, junk).0; p in t.store && t.store[p] == s.store[p]
  {
  }

  lemma CommandKeepsRecords<P>(s: State<P>, from: Address, command: ClientCommand, p: P)
    requires Inv(s) && p in s.store
    ensures var t := CommandStep(s, from, command).0; p in t.store && Forget(t.store[p]) == Forget(s.store[p])
  {
  }

  lemma StepKeepsRecords<P>(s: State<P>, e: Event<P>, p: P)
    requires Inv(s) && p in s.store && (e.Admin? ==> e.block !in s.store)
    ensures p in Step(s, e).0.store && Forget(Step(s, e).0.store[p]) == Forget(s.store[p])
  {
    match e
    case Admin(line, block, junk) => AdminKeepsRecords(s, ParseAdmin(line), block, junk, p);
    case Datagram(from, text) =>
      ArriveKeepsInv(s, from);
      CommandKeepsRecords(Arrive(s, from), from, ParseClient(text), p);
  }

  /** A record once allocated never goes away and never changes but for its port, whatever
      happens to the user tree: the pointers that sessions hold keep their meaning. */
  lemma {:induction false} RecordsNeverChange<P>(s: State<P>, events: seq<Event<P>>, p: P)
    requires Inv(s) && FreshRun(s, events) && p in s.store
    ensures var t := Run(s, events);
            p in t.store && t.store[p] == s.store[p].(port := t.store[p].port)
  {
    if events != [] {
      var init := events[..|events| - 1];
      RecordsNeverChange(s, init, p);
      RunKeepsInv(s, init);
      StepKeepsRecords(Run(s, init), events[|events| - 1], p);
    }
  }

  /** The step asks for the removal of the name. */
  predicate Deletes<P>(e: Event<P>, name: string) {
    e.Admin? && ParseAdmin(e.line) == Del(Some(name))
  }

  lemma AdminKeepsPointer<P>(s: State<P>, command: AdminCommand, block: P, junk: int, name: string, p: P)
    requires Inv(s) && UserNamed(s, name) == Some(p) && command != Del(Some(name))
    ensures UserNamed(AdminStep(s, command, block, junk).0, name) == Some(p)
  {
    match command
    case Add(Some(u)) => UsersAfterAdd(s.users, Entry(u.username, block));
    case Del(Some(other)) => UsersAfterRemove(s.users, other);
    case _ =>
  }

  lemma CommandKeepsUsers<P>(s: State<P>, from: Address, command: ClientCommand)
    ensures CommandStep(s, from, command).0.users == s.users
  {
  }

  lemma StepKeepsPointer<P>(s: State<P>, e: Event<P>, name: string, p: P)
    requires Inv(s) && UserNamed(s, name) == Some(p) && !Deletes(e, name)
    ensures UserNamed(Step(s, e).0, name) == Some(p)
  {
    match e
    case Admin(line, block, junk) => AdminKeepsPointer(s, ParseAdmin(line), block, junk, name, p);
    case Datagram(from, text) => CommandKeepsUsers(Arrive(s, from), from, ParseClient(text));
  }

  /** Without a DEL of its name, a user keeps the very record it had, however the tree moves
      its nodes. */
  lemma {:induction false} PointerIsStable<P>(s: State<P>, events: seq<Event<P>>, name: string, p: P)
    requires Inv(s) && FreshRun(s, events) && UserNamed(s, name) == Some(p)
    requires forall e | e in events :: !Deletes(e, name)
    ensures UserNamed(Run(s, events), name) == Some(p)
  {
    if events != [] {
      var init := events[..|events| - 1];
      PointerIsStable(s, init, name, p);
      RunKeepsInv(s, init);
      StepKeepsPointer(Run(s, init), events[|events| - 1], name, p);
    }
  }
}
