/** The server as a state machine. Each datagram and each admin line is one atomic step. P is
    the type of pointers to user records: sessions and the user tree share them. */
module ServerModel {
  import opened Options
  import opened TreeModel
  import opened Comparators
  import opened Protocol
  import PlainTree

  /** client_t */
  datatype Record = Record(
    username: string, password: string, ip: string, port: int, clientServer: int, p2p: int, group: int)

  /** client_session_t, apart from the address that keys it. */
  datatype Session<P> = Session(client: Option<P>, loggedIn: bool)

  datatype State<P(==)> = State(
    users: Tree<string, P>,             // user_list
    store: map<P, Record>,              // every payload block ever allocated: none is freed
    sessions: map<Address, Session<P>>, // user_session_list
    groups: map<string, string>,        // group_list, name to multicast address
    current: nat,                       // current_group
    pool: seq<string>,                  // groups[], of length max_groups
    file: seq<Record>)                  // the records file

  datatype Reply =
    | AlreadyLoggedIn | InvalidUsage | UserNotFound | DifferentIp | WrongPassword
    | LoggedIn | PortIs(port: int) | Permissions(clientServer: int, p2p: int, group: int)
    | NotLoggedIn | NoPermission | NoUserSession | MessageSent
    | PeerAt(user: string, ip: string, port: int)
    | DuplicatedGroup | GroupCreated(name: string, ip: string) | NoMoreGroups
    | GroupNotFound | MulticastIp(ip: string) | CommandNotFound
    | UserExists | UserCreated(username: string) | UserDeleted(username: string) | User(username: string)

  /** A reply to whoever asked, or a message on its way to another session. */
  datatype Output =
    | ToSender(reply: Reply)
    | Forward(target: Address, sender: string, from: Address, body: string)

  datatype Event<P> =
    | Admin(line: string, block: P, junk: int) // block, junk: what malloc returns, and the port it holds
    | Datagram(from: Address, text: string)

  /** avl_get(user_list, ...) */
  function UserNamed<P>(s: State<P>, name: string): Option<P> {
    if name in Contents(s.users) then Some(Contents(s.users)[name]) else None
  }

  /** Reads a record through a pointer. No reachable state holds a dangling one. */
  function Read<P(==)>(store: map<P, Record>, p: P): Record {
    if p in store then store[p] else Record("", "", "", 0, 0, 0, 0)
  }

  function At<P(==)>(s: State<P>, p: P): Record {
    Read(s.store, p)
  }

  // ---- Admin commands ----

  function NewRecord(u: NewUser, junk: int): Record {
    Record(u.username, u.password, u.ip, junk, u.clientServer, u.p2p, u.group)
  }

  /** A new node in the user tree, with its own copy of the record. */
  function InsertUser<P(==)>(s: State<P>, r: Record, block: P): State<P> {
    s.(users := PlainTree.Add(DataCmp, s.users, Entry(r.username, block)), store := s.store[block := r])
  }

  /** avl_add on the user tree: the file is appended to first. */
  function AddUser<P(==)>(s: State<P>, r: Record, block: P): (State<P>, seq<Output>) {
    if UserNamed(s, r.username).Some? then (s, [ToSender(UserExists)])
    else (InsertUser(s, r, block).(file := s.file + [r]), [ToSender(UserCreated(r.username))])
  }

  /** The records of the tree in order, as private_avl_rewrite writes them. */
  function Snapshot<P(==)>(store: map<P, Record>, entries: seq<Entry<string, P>>): seq<Record> {
    if entries == [] then [] else [Read(store, entries[0].payload)] + Snapshot(store, entries[1..])
  }

  /** avl_remove on the user tree: the file is rewritten from what is left. */
  function DelUser<P(==)>(s: State<P>, name: string): (State<P>, seq<Output>) {
    if UserNamed(s, name).None? then (s, [ToSender(UserNotFound)])
    else
      var users := PlainTree.Remove(DataCmp, s.users, name);
      (s.(users := users, file := Snapshot(s.store, Inorder(users))), [ToSender(UserDeleted(name))])
  }

  /** One line per record, as send_to_client prints them. */
  function Listing(records: seq<Record>): seq<Output> {
    if records == [] then [] else [ToSender(User(records[0].username))] + Listing(records[1..])
  }

  function AdminStep<P(==)>(s: State<P>, command: AdminCommand, block: P, junk: int): (State<P>, seq<Output>) {
    match command
    case List => (s, Listing(Snapshot(s.store, Inorder(s.users))))
    case Add(None) => (s, [ToSender(InvalidUsage)])
    case Add(Some(u)) => AddUser(s, NewRecord(u, junk), block)
    case Del(None) => (s, [ToSender(InvalidUsage)])
    case Del(Some(name)) => DelUser(s, name)
    case Quit => (s, [])
    case UnknownAdmin => (s, [ToSender(CommandNotFound)])
  }

  // ---- Client commands ----

  /** init_client_session: the session of the address, created at its first datagram. */
  function Arrive<P(==)>(s: State<P>, from: Address): State<P> {
    if from in s.sessions then s else s.(sessions := s.sessions[from := Session(None, false)])
  }

  function SessionOf<P>(s: State<P>, from: Address): Session<P> {
    if from in s.sessions then s.sessions[from] else Session(None, false)
  }

  /** The record of the session's user. */
  function Me<P(==)>(s: State<P>, from: Address): Record {
    match SessionOf(s, from).client
    case None => Record("", "", "", 0, 0, 0, 0)
    case Some(p) => At(s, p)
  }

  function LoginStep<P(==)>(s: State<P>, from: Address, args: Option<(string, string)>): (State<P>, seq<Output>) {
    if SessionOf(s, from).loggedIn then (s, [ToSender(AlreadyLoggedIn)])
    else if args.None? then (s, [ToSender(InvalidUsage)])
    else
      match UserNamed(s, args.value.0)
      case None => (s, [ToSender(UserNotFound)])
      case Some(p) =>
        var r := At(s, p);
        if from.ip != r.ip then (s, [ToSender(DifferentIp)])
        else if r.password != args.value.1 then (s, [ToSender(WrongPassword)])
        else
          (s.(sessions := s.sessions[from := Session(Some(p), true)],
              store := s.store[p := r.(port := from.port, ip := from.ip)]),
           [ToSender(LoggedIn), ToSender(PortIs(from.port)), ToSender(Permissions(r.clientServer, r.p2p, r.group))])
  }

  /** The session MSG and P2P find for a user: by the IP and port in the user's record. */
  function Route<P(==)>(s: State<P>, p: P): Option<Address> {
    var key := Address(At(s, p).ip, At(s, p).port);
    if key in s.sessions then Some(key) else None
  }

  function MsgOutput<P(==)>(s: State<P>, from: Address, args: Option<(string, string)>): seq<Output> {
    if !SessionOf(s, from).loggedIn then [ToSender(NotLoggedIn)]
    else if Me(s, from).clientServer == 0 then [ToSender(NoPermission)]
    else if args.None? then [ToSender(InvalidUsage)]
    else
      match UserNamed(s, args.value.0)
      case None => [ToSender(UserNotFound)]
      case Some(p) =>
        match Route(s, p)
        case None => [ToSender(NoUserSession)]
        case Some(a) => [Forward(a, Me(s, from).username, from, args.value.1), ToSender(MessageSent)]
  }

  function P2POutput<P(==)>(s: State<P>, from: Address, user: Option<string>): seq<Output> {
    if !SessionOf(s, from).loggedIn then [ToSender(NotLoggedIn)]
    else if Me(s, from).p2p == 0 then [ToSender(NoPermission)]
    else if user.None? then [ToSender(InvalidUsage)]
    else
      match UserNamed(s, user.value)
      case None => [ToSender(UserNotFound)]
      case Some(p) =>
        match Route(s, p)
        case None => [ToSender(NoUserSession)]
        case Some(a) => [ToSender(PeerAt(user.value, a.ip, a.port))]
  }

  function CreateStep<P(==)>(s: State<P>, from: Address, group: Option<string>): (State<P>, seq<Output>) {
    if !SessionOf(s, from).loggedIn then (s, [ToSender(NotLoggedIn)])
    else if group.None? then (s, [ToSender(InvalidUsage)])
    else if Me(s, from).group == 0 then (s, [ToSender(NoPermission)])
    else if group.value in s.groups then (s, [ToSender(DuplicatedGroup)])
    else AllotGroup(s, group.value)
  }

  /** The next address of the pool, if there is one, goes to a new group. */
  function AllotGroup<P(==)>(s: State<P>, name: string): (State<P>, seq<Output>) {
    if s.current < |s.pool| then
      var ip := s.pool[s.current];
      (s.(groups := s.groups[name := ip], current := s.current + 1), [ToSender(GroupCreated(name, ip))])
    else (s, [ToSender(NoMoreGroups)])
  }

  function GetOutput<P(==)>(s: State<P>, from: Address, group: Option<string>): seq<Output> {
    if !SessionOf(s, from).loggedIn then [ToSender(NotLoggedIn)]
    else if group.None? then [ToSender(InvalidUsage)]
    else if Me(s, from).group == 0 then [ToSender(NoPermission)]
    else if group.value in s.groups then [ToSender(MulticastIp(s.groups[group.value]))]
    else [ToSender(GroupNotFound)]
  }

  function CommandStep<P(==)>(s: State<P>, from: Address, command: ClientCommand): (State<P>, seq<Output>) {
    match command
    case Login(args) => LoginStep(s, from, args)
    case Msg(args) => (s, MsgOutput(s, from, args))
    case P2P(user) => (s, P2POutput(s, from, user))
    case CreateMulticast(group) => CreateStep(s, from, group)
    case GetMulticast(group) => (s, GetOutput(s, from, group))
    case UnknownCommand => (s, [ToSender(CommandNotFound)])
  }

  // ---- Steps and runs ----

  function Step<P(==)>(s: State<P>, e: Event<P>): (State<P>, seq<Output>) {
    match e
    case Admin(line, block, junk) => AdminStep(s, ParseAdmin(line), block, junk)
    case Datagram(from, text) => CommandStep(Arrive(s, from), from, ParseClient(text))
  }

  /** The replay loop of main: records are read in order, and a repeated name is ignored. */
  function Load<P(==)>(file: seq<Record>, blocks: seq<P>): (Tree<string, P>, map<P, Record>)
    requires |blocks| == |file|
  {
    if file == [] then (Leaf, map[])
    else
      var n := |file| - 1;
      var (users, store) := Load(file[..n], blocks[..n]);
      if file[n].username in Contents(users) then (users, store)
      else (PlainTree.Add(DataCmp, users, Entry(file[n].username, blocks[n])), store[blocks[n] := file[n]])
  }

  predicate Distinct<E(==)>(s: seq<E>) {
    forall i, j | 0 <= i < j < |s| :: s[i] != s[j]
  }

  /** The state in which the server starts to listen. */
  function Start<P(==)>(file: seq<Record>, pool: seq<string>, blocks: seq<P>): State<P>
    requires |blocks| == |file|
  {
    var (users, store) := Load(file, blocks);
    State(users, store, map[], map[], 0, pool, file)
  }

  function Run<P(==)>(s: State<P>, events: seq<Event<P>>): State<P> {
    if events == [] then s else Step(Run(s, events[..|events| - 1]), events[|events| - 1]).0
  }

  /** malloc never returns a block that is in use. */
  predicate FreshRun<P(==)>(s: State<P>, events: seq<Event<P>>) {
    events == []
    || (var init, e := events[..|events| - 1], events[|events| - 1];
        FreshRun(s, init) && (e.Admin? ==> e.block !in Run(s, init).store))
  }

  /** What holds in every reachable state: the user tree is a search tree over names, its
      payloads and the sessions' pointers are allocated, a session is bound to a record if
      and only if it is logged in, and their IPs are equal. */
  ghost predicate Inv<P>(s: State<P>) {
    && Ordered(DataCmp, s.users)
    && (forall k | k in Contents(s.users) ::
          Contents(s.users)[k] in s.store && s.store[Contents(s.users)[k]].username == k)
    && (forall a | a in s.sessions :: Bound(s, a, s.sessions[a]))
  }

  ghost predicate Bound<P>(s: State<P>, a: Address, x: Session<P>) {
    && (x.loggedIn <==> x.client.Some?)
    && (x.client.Some? ==> x.client.value in s.store && s.store[x.client.value].ip == a.ip)
  }

  lemma UsersAfterAdd<P>(users: Tree<string, P>, e: Entry<string, P>)
    requires Ordered(DataCmp, users)
    ensures Ordered(DataCmp, PlainTree.Add(DataCmp, users, e))
    ensures Contents(PlainTree.Add(DataCmp, users, e)) ==
            if e.key in Contents(users) then Contents(users) else Contents(users)[e.key := e.payload]
  {
    DataCmpIsOrder();
    PlainTree.AddInserts(DataCmp, users, e);
  }

  lemma UsersAfterRemove<P>(users: Tree<string, P>, name: string)
    requires Ordered(DataCmp, users)
    ensures Ordered(DataCmp, PlainTree.Remove(DataCmp, users, name))
    ensures Contents(PlainTree.Remove(DataCmp, users, name)) ==
            if PlainTree.HasSpareChild(Find(DataCmp, users, name)) then Contents(users) - {name} else Contents(users)
  {
    DataCmpIsOrder();
    PlainTree.RemoveLaw(DataCmp, users, name);
  }

  lemma AddUserKeepsInv<P>(s: State<P>, r: Record, block: P)
    requires Inv(s) && block !in s.store
    ensures Inv(AddUser(s, r, block).0)
  {
    UsersAfterAdd(s.users, Entry(r.username, block));
  }

  lemma DelUserKeepsInv<P>(s: State<P>, name: string)
    requires Inv(s)
    ensures Inv(DelUser(s, name).0)
  {
    UsersAfterRemove(s.users, name);
  }

  lemma LoginKeepsInv<P>(s: State<P>, from: Address, args: Option<(string, string)>)
    requires Inv(s)
    ensures Inv(LoginStep(s, from, args).0)
  {
  }

  lemma AdminKeepsInv<P>(s: State<P>, command: AdminCommand, block: P, junk: int)
    requires Inv(s) && block !in s.store
    ensures Inv(AdminStep(s, command, block, junk).0)
  {
    match command
    case Add(Some(u)) => AddUserKeepsInv(s, NewRecord(u, junk), block);
    case Del(Some(name)) => DelUserKeepsInv(s, name);
    case _ =>
  }

  lemma CommandKeepsInv<P>(s: State<P>, from: Address, command: ClientCommand)
    requires Inv(s)
    ensures Inv(CommandStep(s, from, command).0)
  {
    match command
    case Login(args) => LoginKeepsInv(s, from, args);
    case _ =>
  }

  lemma ArriveKeepsInv<P>(s: State<P>, from: Address)
    requires Inv(s)
    ensures Inv(Arrive(s, from))
  {
  }

  lemma StepKeepsInv<P>(s: State<P>, e: Event<P>)
    requires Inv(s) && (e.Admin? ==> e.block !in s.store)
    ensures Inv(Step(s, e).0)
  {
    match e
    case Admin(line, block, junk) => AdminKeepsInv(s, ParseAdmin(line), block, junk);
    case Datagram(from, text) =>
      ArriveKeepsInv(s, from);
      CommandKeepsInv(Arrive(s, from), from, ParseClient(text));
  }

  lemma {:induction false} RunKeepsInv<P>(s: State<P>, events: seq<Event<P>>)
    requires Inv(s) && FreshRun(s, events)
    ensures Inv(Run(s, events))
  {
    if events != [] {
      RunKeepsInv(s, events[..|events| - 1]);
      StepKeepsInv(Run(s, events[..|events| - 1]), events[|events| - 1]);
    }
  }

  lemma {:induction false} LoadIsSound<P>(file: seq<Record>, blocks: seq<P>)
    requires |blocks| == |file| && Distinct(blocks)
    ensures var (users, store) := Load(file, blocks);
            && Ordered(DataCmp, users)
            && (forall k | k in Contents(users) ::
                  Contents(users)[k] in store && store[Contents(users)[k]].username == k)
            && (forall p | p in store :: p in blocks)
  {
    if file != [] {
      var n := |file| - 1;
      LoadIsSound(file[..n], blocks[..n]);
      var (users, store) := Load(file[..n], blocks[..n]);
      UsersAfterAdd(users, Entry(file[n].username, blocks[n]));
      assert blocks[n] !in blocks[..n];
    }
  }

  lemma StartIsSound<P>(file: seq<Record>, pool: seq<string>, blocks: seq<P>)
    requires |blocks| == |file| && Distinct(blocks)
    ensures Inv(Start(file, pool, blocks))
  {
    LoadIsSound(file, blocks);
  }
}
