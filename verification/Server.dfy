/** The running server: its three trees, the file and the globals. Every handler is proved to
    take the step of ServerModel on what the objects stand for. */
module Server {
  import opened Options
  import opened TreeModel
  import opened Comparators
  import opened CString
  import opened Protocol
  import opened ServerModel
  import opened Texts
  import opened UserStore
  import opened SessionStore
  import opened GroupStore
  import PlainTree

  /** The table loop of the two dispatchers: the first name that equals the command. */
  method FindCommand(names: seq<string>, command: string) returns (i: nat)
    ensures i <= |names| && (i < |names| ==> names[i] == command)
    ensures forall j | 0 <= j < i :: names[j] != command
    ensures i == IndexOf(names, command)
  {
    i := 0;
    while i < |names|
      invariant i <= |names|
      invariant forall j | 0 <= j < i :: names[j] != command
    {
      if command == names[i] {
        break;
      }
      i := i + 1;
    }
    IndexIs(names, command, i);
  }

  /** The step of the handler at a place of the table. */
  lemma Dispatch<P>(s: State<P>, from: Address, i: nat, args: string)
    ensures CommandStep(s, from, HandlerAt(i, args)) ==
            if i == 0 then LoginStep(s, from, ScanTexts(LOGIN_ARGS, args))
            else if i == 1 then (s, MsgOutput(s, from, ScanTexts(MSG_ARGS, args)))
            else if i == 2 then (s, P2POutput(s, from, ScanText(args)))
            else if i == 3 then CreateStep(s, from, ScanText(args))
            else if i == 4 then (s, GetOutput(s, from, ScanText(args)))
            else (s, [ToSender(CommandNotFound)])
  {
  }

  /** The state once these records have been replayed. */
  ghost function Loaded<P>(s: State<P>, file: seq<Record>, blocks: seq<P>): State<P>
    requires |blocks| == |file|
  {
    s.(users := Load(file, blocks).0, store := Load(file, blocks).1)
  }

  lemma LoadNext<P>(s: State<P>, records: seq<Record>, blocks: seq<P>, i: nat, c: P)
    requires i < |records| && |blocks| == i
    ensures var t := Loaded(s, records[..i], blocks);
            Loaded(s, records[..i + 1], blocks + [c]) ==
            if UserNamed(t, records[i].username).Some? then t else InsertUser(t, records[i], c)
  {
    assert records[..i + 1][..i] == records[..i] && (blocks + [c])[..i] == blocks;
  }

  class Server {
    const users: UserStore
    const sessions: SessionStore
    const groups: GroupStore

    /** The parts are sound and share no object. */
    ghost predicate Whole()
      reads users, users.Repr, sessions, sessions.Repr, groups, groups.Repr
    {
      && users.Valid() && sessions.Valid() && groups.Valid()
      && users.Repr !! sessions.Repr !! groups.Repr
    }

    /** The state this server is in. */
    ghost function Abs(): State<Client>
      reads users, sessions, groups
    {
      State(users.Users, users.Records, sessions.View, groups.View, groups.currentGroup, groups.pool, users.file)
    }

    ghost predicate Valid()
      reads users, users.Repr, sessions, sessions.Repr, groups, groups.Repr
    {
      Whole() && Inv(Abs())
    }

    /** A session of this server, bound to a record if and only if it is logged in. */
    ghost predicate Knows(x: ClientSession)
      reads users, users.Repr, sessions, sessions.Repr, groups, groups.Repr
    {
      Whole() && sessions.Holds(x) && Bound(Abs(), x.address, sessions.View[x.address])
    }

    /** Every session object is still the one of its address. */
    ghost predicate KeepsSessions(was: map<Address, ClientSession>)
      reads sessions
    {
      forall a | a in was :: a in sessions.Objects && sessions.Objects[a] == was[a]
    }

    /** The groups have gained no object but new ones. */
    twostate predicate GroupsGrow()
      reads groups
    {
      forall o | o in groups.Repr :: o in old(groups.Repr) || fresh(o)
    }

    /** main, before the replay. */
    constructor (file: seq<Record>, pool: seq<string>)
      ensures Whole() && fresh(users.Repr + sessions.Repr + groups.Repr)
      ensures Abs() == Start([], pool, []).(file := file)
    {
      users := new UserStore(file);
      sessions := new SessionStore();
      groups := new GroupStore(pool);
    }

    // ---- One change to one part ----

    method InsertUser(c: Client) returns (code: Code)
      requires Whole() && c !in users.Repr + sessions.Repr + groups.Repr
      modifies users.Repr
      ensures Whole() && fresh(users.Repr - old(users.Repr) - {c}) && old(users.Repr) + {c} <= users.Repr
      ensures code == if UserNamed(old(Abs()), c.username).Some? then DuplicatedKey else Ok
      ensures Abs() == if code == Ok then ServerModel.InsertUser(old(Abs()), old(c.Value()), c) else old(Abs())
    {
      code := users.Insert(c);
    }

    method BindSession(x: ClientSession, c: Client)
      requires Whole() && sessions.Holds(x)
      modifies x, sessions`View
      ensures Whole() && sessions.Holds(x) && groups.Repr == old(groups.Repr)
      ensures Abs() == old(Abs()).(sessions := old(Abs().sessions)[x.address := Session(Some(c), true)])
    {
      assert sessions.Owns(x.address, x);
      sessions.Bind(x, c);
    }

    method NoteLogin(c: Client, from: Address)
      requires Whole() && c in users.Records
      modifies c, users`Records
      ensures Whole() && groups.Repr == old(groups.Repr)
      ensures var r := old(users.Records[c]);
              Abs() == old(Abs()).(store := old(Abs().store)[c := r.(port := from.port, ip := from.ip)])
    {
      users.NoteLogin(c, from.ip, from.port);
    }

    method RemoveUser(name: string) returns (code: Code)
      requires Whole()
      modifies users.Repr
      ensures Whole() && users.Repr == old(users.Repr)
      ensures code == if UserNamed(old(Abs()), name).Some? then Ok else KeyNotFound
      ensures Abs() ==
              if code == Ok then old(Abs()).(users := PlainTree.Remove(DataCmp, old(users.Users), name)) else old(Abs())
    {
      code := users.Remove(name);
    }

    method Append(r: Record)
      requires Whole()
      modifies users`file
      ensures Whole() && Abs() == old(Abs()).(file := old(users.file) + [r])
    {
      users.Write(r);
    }

    method Rewrite()
      requires Whole()
      modifies users`file
      ensures Whole() && Abs() == old(Abs()).(file := Snapshot(users.Records, Inorder(users.Users)))
    {
      users.Rewrite();
    }

    method InitClientSession(from: Address) returns (x: ClientSession)
      requires Whole()
      modifies sessions.Repr
      ensures Whole() && fresh(sessions.Repr - old(sessions.Repr)) && sessions.Holds(x) && x.address == from
      ensures Abs() == Arrive(old(Abs()), from) && groups.Repr == old(groups.Repr)
      ensures KeepsSessions(old(sessions.Objects))
    {
      x := sessions.InitClientSession(from);
    }

    /** The last branch of cmd_createmulticast. */
    method AllotGroup(name: string) returns (out: seq<Output>)
      requires Whole() && name !in groups.View
      modifies groups.Repr
      ensures Whole() && GroupsGrow()
      ensures (Abs(), out) == ServerModel.AllotGroup(old(Abs()), name)
    {
      if groups.currentGroup < |groups.pool| {
        var ip := groups.Create(name);
        out := [ToSender(GroupCreated(name, ip))];
      } else {
        out := [ToSender(NoMoreGroups)];
      }
    }

    // ---- Client commands ----

    /** cmd_login */
    method CmdLogin(x: ClientSession, args: string) returns (out: seq<Output>)
      requires Whole() && sessions.Holds(x)
      modifies users.Repr, x, sessions`View
      ensures Whole() && groups.Repr == old(groups.Repr)
      ensures (Abs(), out) == LoginStep(old(Abs()), x.address, ScanTexts(LOGIN_ARGS, args))
    {
      if x.loggedIn {
        return [ToSender(AlreadyLoggedIn)];
      }
      var scanned := ScanTexts(LOGIN_ARGS, args);
      if scanned.None? {
        return [ToSender(InvalidUsage)];
      }
      var c := users.Get(scanned.value.0);
      if c == null {
        return [ToSender(UserNotFound)];
      }
      if x.address.ip != c.ip {
        return [ToSender(DifferentIp)];
      }
      if c.password != scanned.value.1 {
        return [ToSender(WrongPassword)];
      }
      out := Admit(x, c);
    }

    /** The successful branch of cmd_login. */
    method Admit(x: ClientSession, c: Client) returns (out: seq<Output>)
      requires Whole() && sessions.Holds(x) && c in users.Records
      modifies c, users`Records, x, sessions`View
      ensures Whole() && groups.Repr == old(groups.Repr)
      ensures var r := old(users.Records[c]);
              && Abs() == old(Abs()).(sessions := old(sessions.View)[x.address := Session(Some(c), true)],
                                      store := old(users.Records)[c := r.(port := x.address.port, ip := x.address.ip)])
              && out == [ToSender(LoggedIn), ToSender(PortIs(x.address.port)),
                         ToSender(Permissions(r.clientServer, r.p2p, r.group))]
    {
      BindSession(x, c);
      NoteLogin(c, x.address);
      out := [ToSender(LoggedIn), ToSender(PortIs(x.address.port)),
              ToSender(Permissions(c.clientServer, c.p2p, c.group))];
    }

    /** The record behind a logged-in session: in every reachable state there is one. */
    lemma Identify(x: ClientSession)
      requires Knows(x) && x.loggedIn
      ensures x.client != null && x.client in users.Records && x.client.Value() == Me(Abs(), x.address)
      ensures SessionOf(Abs(), x.address).loggedIn
    {
    }

    /** The lookups MSG and P2P share: the user's record, and the session at its address. */
    method FindSessionOf(user: string) returns (known: bool, y: ClientSession?)
      requires Whole()
      ensures known <==> UserNamed(Abs(), user).Some?
      ensures known ==> Route(Abs(), UserNamed(Abs(), user).value) == if y == null then None else Some(y.address)
    {
      var c := users.Get(user);
      if c == null {
        return false, null;
      }
      known := true;
      y := sessions.Get(Address(c.ip, c.port));
    }

    /** cmd_msg */
    method CmdMsg(x: ClientSession, args: string) returns (out: seq<Output>)
      requires Knows(x)
      ensures out == MsgOutput(Abs(), x.address, ScanTexts(MSG_ARGS, args))
    {
      if !x.loggedIn {
        return [ToSender(NotLoggedIn)];
      }
      Identify(x);
      if x.client.clientServer == 0 {
        return [ToSender(NoPermission)];
      }
      var scanned := ScanTexts(MSG_ARGS, args);
      if scanned.None? {
        return [ToSender(InvalidUsage)];
      }
      var known, y := FindSessionOf(scanned.value.0);
      if !known {
        return [ToSender(UserNotFound)];
      }
      if y == null {
        return [ToSender(NoUserSession)];
      }
      out := [Forward(y.address, x.client.username, x.address, scanned.value.1), ToSender(MessageSent)];
    }

    /** cmd_p2p */
    method CmdP2P(x: ClientSession, args: string) returns (out: seq<Output>)
      requires Knows(x)
      ensures out == P2POutput(Abs(), x.address, ScanText(args))
    {
      if !x.loggedIn {
        return [ToSender(NotLoggedIn)];
      }
      Identify(x);
      if x.client.p2p == 0 {
        return [ToSender(NoPermission)];
      }
      var scanned := ScanText(args);
      if scanned.None? {
        return [ToSender(InvalidUsage)];
      }
      var known, y := FindSessionOf(scanned.value);
      if !known {
        return [ToSender(UserNotFound)];
      }
      if y == null {
        return [ToSender(NoUserSession)];
      }
      out := [ToSender(PeerAt(scanned.value, y.address.ip, y.address.port))];
    }

    /** cmd_createmulticast */
    method CmdCreateMulticast(x: ClientSession, args: string) returns (out: seq<Output>)
      requires Knows(x)
      modifies groups.Repr
      ensures Whole() && GroupsGrow()
      ensures (Abs(), out) == CreateStep(old(Abs()), x.address, ScanText(args))
    {
      if !x.loggedIn {
        return [ToSender(NotLoggedIn)];
      }
      Identify(x);
      var scanned := ScanText(args);
      if scanned.None? {
        return [ToSender(InvalidUsage)];
      }
      if x.client.group == 0 {
        return [ToSender(NoPermission)];
      }
      var known := groups.Get(scanned.value);
      if known.Some? {
        return [ToSender(DuplicatedGroup)];
      }
      out := AllotGroup(scanned.value);
    }

    /** cmd_getmulticast */
    method CmdGetMulticast(x: ClientSession, args: string) returns (out: seq<Output>)
      requires Knows(x)
      ensures out == GetOutput(Abs(), x.address, ScanText(args))
    {
      if !x.loggedIn {
        return [ToSender(NotLoggedIn)];
      }
      Identify(x);
      var scanned := ScanText(args);
      if scanned.None? {
        return [ToSender(InvalidUsage)];
      }
      if x.client.group == 0 {
        return [ToSender(NoPermission)];
      }
      var ip := groups.Get(scanned.value);
      out := if ip.None? then [ToSender(GroupNotFound)] else [ToSender(MulticastIp(ip.value))];
    }

    method Handle(x: ClientSession, i: nat, args: string) returns (out: seq<Output>)
      requires Knows(x)
      modifies users.Repr, x, sessions`View, groups.Repr
      ensures Whole() && GroupsGrow()
      ensures (Abs(), out) == CommandStep(old(Abs()), x.address, HandlerAt(i, args))
    {
      Dispatch(Abs(), x.address, i, args);
      if i == 0 {
        out := CmdLogin(x, args);
      } else if i == 3 {
        out := CmdCreateMulticast(x, args);
      } else {
        out := Answer(x, i, args);
      }
    }

    /** The handlers that change nothing, and the reply of udp_server_worker when there is none. */
    method Answer(x: ClientSession, i: nat, args: string) returns (out: seq<Output>)
      requires Knows(x) && i != 0 && i != 3
      ensures (Abs(), out) == CommandStep(Abs(), x.address, HandlerAt(i, args))
    {
      Dispatch(Abs(), x.address, i, args);
      if i == 1 {
        out := CmdMsg(x, args);
      } else if i == 2 {
        out := CmdP2P(x, args);
      } else if i == 4 {
        out := CmdGetMulticast(x, args);
      } else {
        out := [ToSender(CommandNotFound)];
      }
    }

    /** client_cmd_function: cuts the line, splits it, and runs the handler at the command's place
        in the table. */
    method ClientCmdFunction(x: ClientSession, text: string) returns (out: seq<Output>)
      requires Knows(x)
      modifies users.Repr, x, sessions`View, groups.Repr
      ensures Whole() && GroupsGrow()
      ensures (Abs(), out) == CommandStep(old(Abs()), x.address, ParseClient(text))
    {
      var (command, args) := SplitCommand(FirstLine(text));
      var i := FindCommand(CLIENT_COMMANDS, command);
      out := Handle(x, i, args);
    }

    /** One turn of udp_server_worker. */
    method HandleDatagram(from: Address, text: string) returns (out: seq<Output>)
      requires Valid()
      modifies users.Repr, sessions.Repr, groups.Repr
      ensures Valid() && fresh(sessions.Repr - old(sessions.Repr)) && GroupsGrow()
      ensures (Abs(), out) == Step(old(Abs()), Datagram(from, text))
      ensures KeepsSessions(old(sessions.Objects))
    {
      StepKeepsInv(Abs(), Datagram(from, text));
      out := Turn(from, text);
    }

    /** The turn itself: the session, and then the command. */
    method Turn(from: Address, text: string) returns (out: seq<Output>)
      requires Valid()
      modifies users.Repr, sessions.Repr, groups.Repr
      ensures Whole() && fresh(sessions.Repr - old(sessions.Repr)) && GroupsGrow()
      ensures (Abs(), out) == Step(old(Abs()), Datagram(from, text))
      ensures KeepsSessions(old(sessions.Objects))
    {
      var x := Welcome(from);
      out := ClientCmdFunction(x, text);
    }

    /** The session of the sender, in a state that is sound again. */
    method Welcome(from: Address) returns (x: ClientSession)
      requires Valid()
      modifies sessions.Repr
      ensures Knows(x) && x.address == from && Abs() == Arrive(old(Abs()), from)
      ensures x in sessions.Repr && groups.Repr == old(groups.Repr)
      ensures fresh(sessions.Repr - old(sessions.Repr)) && KeepsSessions(old(sessions.Objects))
    {
      ArriveKeepsInv(Abs(), from);
      x := InitClientSession(from);
    }

    // ---- Admin commands ----

    /** cmd_list */
    method CmdList() returns (out: seq<Output>)
      requires Whole()
      ensures out == Listing(Snapshot(Abs().store, Inorder(Abs().users)))
    {
      var records := users.ListUsers();
      out := Listing(records);
    }

    /** cmd_add */
    method CmdAdd(args: string, junk: int) returns (out: seq<Output>, ghost block: Client)
      requires Whole()
      modifies users.Repr
      ensures Whole() && fresh(users.Repr - old(users.Repr)) && fresh(block)
      ensures (Abs(), out) == AdminStep(old(Abs()), Add(ScanNewUser(args)), block, junk)
    {
      var scanned := ScanNewUser(args);
      if scanned.None? {
        block := new Client.Unused();
        return [ToSender(InvalidUsage)], block;
      }
      var r := NewRecord(scanned.value, junk);
      var client := new Client(r);
      block := client;
      out := AvlAdd(client, r);
    }

    /** avl_add with the write: the name is looked up, the record written, the node inserted. */
    method AvlAdd(client: Client, r: Record) returns (out: seq<Output>)
      requires Whole() && client !in users.Repr + sessions.Repr + groups.Repr && client.Value() == r
      modifies users.Repr
      ensures Whole() && fresh(users.Repr - old(users.Repr) - {client})
      ensures (Abs(), out) == AddUser(old(Abs()), r, client)
    {
      var known := users.Get(r.username);
      if known != null {
        return [ToSender(UserExists)];
      }
      WriteAndInsert(client, r);
      out := [ToSender(UserCreated(r.username))];
    }

    method WriteAndInsert(client: Client, r: Record)
      requires Whole() && client !in users.Repr + sessions.Repr + groups.Repr && client.Value() == r
      requires UserNamed(Abs(), r.username).None?
      modifies users.Repr
      ensures Whole() && fresh(users.Repr - old(users.Repr) - {client})
      ensures Abs() == ServerModel.InsertUser(old(Abs()), r, client).(file := old(users.file) + [r])
    {
      Append(r);
      var code := InsertUser(client);
    }

    /** cmd_del: whenever the name is found the file is rewritten, and the answer is the same. */
    method CmdDel(args: string) returns (out: seq<Output>)
      requires Whole()
      modifies users.Repr
      ensures Whole() && users.Repr == old(users.Repr)
      ensures (Abs(), out) == match ScanText(args)
                              case None => (old(Abs()), [ToSender(InvalidUsage)])
                              case Some(name) => DelUser(old(Abs()), name)
    {
      var name := ScanText(args);
      if name.None? {
        return [ToSender(InvalidUsage)];
      }
      var code := RemoveUser(name.value);
      if code == KeyNotFound {
        return [ToSender(UserNotFound)];
      }
      Rewrite();
      out := [ToSender(UserDeleted(name.value))];
    }

    /** cmd_function. An unknown command leaves the exit flag as it was. */
    method CmdFunction(line: string, junk: int, exitFlag: bool)
      returns (out: seq<Output>, exit: bool, ghost block: Client)
      requires Valid()
      modifies users.Repr
      ensures Valid() && fresh(users.Repr - old(users.Repr)) && fresh(block)
      ensures (Abs(), out) == Step(old(Abs()), Admin(line, block, junk))
      ensures exit == if Names(line, "QUIT") then true
                      else if Names(line, "LIST") || Names(line, "ADD") || Names(line, "DEL") then false
                      else exitFlag
    {
      ghost var s := Abs();
      var (command, args) := SplitCommand(FirstLine(line));
      var i := FindCommand(ADMIN_COMMANDS, command);
      out, exit, block := HandleAdmin(i, args, junk, exitFlag);
      AdminKinds(line);
      AdminKeepsInv(s, ParseAdmin(line), block, junk);
    }

    method HandleAdmin(i: nat, args: string, junk: int, exitFlag: bool)
      returns (out: seq<Output>, exit: bool, ghost block: Client)
      requires Whole()
      modifies users.Repr
      ensures Whole() && fresh(users.Repr - old(users.Repr)) && fresh(block)
      ensures (Abs(), out) == AdminStep(old(Abs()), AdminHandlerAt(i, args), block, junk)
      ensures exit == if i == 3 then true else if i < 3 then false else exitFlag
    {
      exit := if i == 3 then true else if i < 3 then false else exitFlag;
      if i == 1 {
        out, block := CmdAdd(args, junk);
        return;
      }
      block := new Client.Unused();
      if i == 0 {
        out := CmdList();
      } else if i == 2 {
        out := CmdDel(args);
      } else {
        out := if i == 3 then [] else [ToSender(CommandNotFound)];
      }
    }

    // ---- Start-up ----

    /** avl_add of a record read from the file. */
    method LoadOne(r: Record) returns (c: Client)
      requires Whole()
      modifies users.Repr
      ensures Whole() && fresh(users.Repr - old(users.Repr)) && fresh(c) && c in users.Repr
      ensures old(users.Repr) <= users.Repr
      ensures Abs() ==
              if UserNamed(old(Abs()), r.username).Some? then old(Abs())
              else ServerModel.InsertUser(old(Abs()), r, c)
    {
      c := new Client(r);
      var code := InsertUser(c);
    }

    /** The replay loop of main. */
    method Replay() returns (ghost blocks: seq<Client>)
      requires Whole() && Abs() == Start([], groups.pool, []).(file := users.file)
      modifies users.Repr
      ensures Valid() && fresh(users.Repr - old(users.Repr))
      ensures |blocks| == |old(users.file)| && Distinct(blocks)
      ensures Abs() == Start(old(users.file), groups.pool, blocks)
    {
      var records := users.file;
      ghost var s := Abs();
      var i := 0;
      blocks := [];
      while i < |records|
        invariant i <= |records| && |blocks| == i && Distinct(blocks)
        invariant Whole() && fresh(users.Repr - old(users.Repr))
        invariant forall b | b in blocks :: b in users.Repr
        invariant Abs() == Loaded(s, records[..i], blocks)
      {
        var c := LoadOne(records[i]);
        LoadNext(s, records, blocks, i, c);
        blocks := blocks + [c];
        i := i + 1;
      }
      assert records[..i] == records;
      StartIsSound(records, groups.pool, blocks);
    }
  }
}
