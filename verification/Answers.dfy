/** What every datagram is answered, said of its text and of the state it meets: the rules of
    the commands, apart from how the handlers are written. */
module Answers {
  import opened Options
  import opened TreeModel
  import opened Comparators
  import opened Protocol
  import opened ServerModel
  import opened Texts
  import opened Groups

  predicate IsIn<P(==)>(s: State<P>, from: Address) {
    from in s.sessions && s.sessions[from].loggedIn
  }

  /** The record of a logged-in session. */
  ghost function Mine<P>(s: State<P>, from: Address): Record
    requires Inv(s) && IsIn(s, from)
  {
    assert Bound(s, from, s.sessions[from]);
    s.store[s.sessions[from].client.value]
  }

  /** The record a name stands for. */
  ghost function Theirs<P>(s: State<P>, user: string): Record
    requires Inv(s) && user in Contents(s.users)
  {
    s.store[Contents(s.users)[user]]
  }

  /** Nothing changes, but the sender has a session from now on. */
  predicate Arrives<P(==)>(s: State<P>, from: Address, t: State<P>) {
    && t == s.(sessions := t.sessions)
    && t.sessions.Keys == s.sessions.Keys + {from}
    && (forall a | a in s.sessions :: t.sessions[a] == s.sessions[a])
    && (from !in s.sessions ==> t.sessions[from] == Session(None, false))
  }

  // ---- The rules ----

  /** LOGIN: not twice, two words, a known user, from the record's IP, with the record's
      password. */
  ghost predicate LoginRule<P>(s: State<P>, from: Address, args: string, t: State<P>, out: seq<Output>)
    requires Inv(s)
  {
    if IsIn(s, from) then t == s && out == [ToSender(AlreadyLoggedIn)]
    else
      && ((forall u, v :: !TwoWords(args, u, v)) ==> Arrives(s, from, t) && out == [ToSender(InvalidUsage)])
      && forall u, v | TwoWords(args, u, v) ::
           if u !in Contents(s.users) then Arrives(s, from, t) && out == [ToSender(UserNotFound)]
           else
             var r := Theirs(s, u);
             if r.ip != from.ip then Arrives(s, from, t) && out == [ToSender(DifferentIp)]
             else if r.password != v then Arrives(s, from, t) && out == [ToSender(WrongPassword)]
             else
               var p := Contents(s.users)[u];
               && t == s.(sessions := s.sessions[from := Session(Some(p), true)],
                          store := s.store[p := r.(port := from.port)])
               && out == [ToSender(LoggedIn), ToSender(PortIs(from.port)),
                          ToSender(Permissions(r.clientServer, r.p2p, r.group))]
  }

  /** MSG: logged in, permitted, a word and a line, a known user, a session at the user's
      address; and then the line goes to that session. */
  ghost predicate MsgRule<P>(s: State<P>, from: Address, args: string, out: seq<Output>)
    requires Inv(s)
  {
    if !IsIn(s, from) then out == [ToSender(NotLoggedIn)]
    else if Mine(s, from).clientServer == 0 then out == [ToSender(NoPermission)]
    else
      && ((forall u, v :: !WordAndLine(args, u, v)) ==> out == [ToSender(InvalidUsage)])
      && forall u, v | WordAndLine(args, u, v) :: MsgSent(s, from, u, v, out)
  }

  ghost predicate MsgSent<P>(s: State<P>, from: Address, user: string, body: string, out: seq<Output>)
    requires Inv(s) && IsIn(s, from)
  {
    if user !in Contents(s.users) then out == [ToSender(UserNotFound)]
    else
      var a := Address(Theirs(s, user).ip, Theirs(s, user).port);
      if a !in s.sessions then out == [ToSender(NoUserSession)]
      else out == [Forward(a, Mine(s, from).username, from, body), ToSender(MessageSent)]
  }

  /** P2P: the same, and the session is named to the sender. */
  ghost predicate P2PRule<P>(s: State<P>, from: Address, args: string, out: seq<Output>)
    requires Inv(s)
  {
    if !IsIn(s, from) then out == [ToSender(NotLoggedIn)]
    else if Mine(s, from).p2p == 0 then out == [ToSender(NoPermission)]
    else
      && ((forall u :: !OneWord(args, u)) ==> out == [ToSender(InvalidUsage)])
      && forall u | OneWord(args, u) :: PeerTold(s, u, out)
  }

  ghost predicate PeerTold<P>(s: State<P>, user: string, out: seq<Output>)
    requires Inv(s)
  {
    if user !in Contents(s.users) then out == [ToSender(UserNotFound)]
    else
      var a := Address(Theirs(s, user).ip, Theirs(s, user).port);
      if a !in s.sessions then out == [ToSender(NoUserSession)]
      else out == [ToSender(PeerAt(user, a.ip, a.port))]
  }

  /** CREATEMULTICAST: logged in, a word, permitted, a new name, an address left in the pool; and
      then the name holds that address. */
  ghost predicate CreateRule<P>(s: State<P>, from: Address, args: string, t: State<P>, out: seq<Output>)
    requires Inv(s)
  {
    if !IsIn(s, from) then Arrives(s, from, t) && out == [ToSender(NotLoggedIn)]
    else
      && ((forall g :: !OneWord(args, g)) ==> t == s && out == [ToSender(InvalidUsage)])
      && forall g | OneWord(args, g) :: GroupMade(s, from, g, t, out)
  }

  ghost predicate GroupMade<P>(s: State<P>, from: Address, g: string, t: State<P>, out: seq<Output>)
    requires Inv(s) && IsIn(s, from)
  {
    if Mine(s, from).group == 0 then t == s && out == [ToSender(NoPermission)]
    else if g in s.groups then t == s && out == [ToSender(DuplicatedGroup)]
    else if s.current >= |s.pool| then t == s && out == [ToSender(NoMoreGroups)]
    else
      var ip := s.pool[s.current];
      && t == s.(groups := s.groups[g := ip], current := s.current + 1)
      && out == [ToSender(GroupCreated(g, ip))]
  }

  /** GETMULTICAST: logged in, a word, permitted, a known name. */
  ghost predicate GetRule<P>(s: State<P>, from: Address, args: string, out: seq<Output>)
    requires Inv(s)
  {
    if !IsIn(s, from) then out == [ToSender(NotLoggedIn)]
    else
      && ((forall g :: !OneWord(args, g)) ==> out == [ToSender(InvalidUsage)])
      && forall g | OneWord(args, g) ::
           out == [ToSender(
                     if Mine(s, from).group == 0 then NoPermission
                     else if g in s.groups then MulticastIp(s.groups[g])
                     else GroupNotFound)]
  }

  // ---- The handlers keep the rules ----

  lemma ArriveArrives<P>(s: State<P>, from: Address)
    requires Inv(s)
    ensures Inv(Arrive(s, from)) && Arrives(s, from, Arrive(s, from))
    ensures IsIn(s, from) ==> Arrive(s, from) == s
    ensures SessionOf(Arrive(s, from), from).loggedIn <==> IsIn(s, from)
    ensures IsIn(s, from) ==> Me(s, from) == Mine(s, from)
  {
    ArriveKeepsInv(s, from);
    assert IsIn(s, from) ==> Bound(s, from, s.sessions[from]);
  }

  lemma LoginKeepsRule<P>(s: State<P>, from: Address, args: string, scanned: Option<(string, string)>)
    requires Inv(s) && forall u, v :: scanned == Some((u, v)) <==> TwoWords(args, u, v)
    ensures var (t, out) := LoginStep(Arrive(s, from), from, scanned); LoginRule(s, from, args, t, out)
  {
    ArriveArrives(s, from);
    var s1 := Arrive(s, from);
    if scanned.Some? && UserNamed(s, scanned.value.0).Some? {
      var bound := Session(UserNamed(s, scanned.value.0), true);
      assert s1.sessions[from := bound] == s.sessions[from := bound];
    }
    assert scanned.None? || scanned == Some((scanned.value.0, scanned.value.1));
  }

  lemma MsgKeepsRule<P>(s: State<P>, from: Address, args: string, scanned: Option<(string, string)>)
    requires Inv(s) && forall u, v :: scanned == Some((u, v)) <==> WordAndLine(args, u, v)
    ensures MsgRule(s, from, args, MsgOutput(Arrive(s, from), from, scanned))
  {
    ArriveArrives(s, from);
    assert scanned.None? || scanned == Some((scanned.value.0, scanned.value.1));
  }

  lemma P2PKeepsRule<P>(s: State<P>, from: Address, args: string, scanned: Option<string>)
    requires Inv(s) && forall u :: scanned == Some(u) <==> OneWord(args, u)
    ensures P2PRule(s, from, args, P2POutput(Arrive(s, from), from, scanned))
  {
    ArriveArrives(s, from);
    assert scanned.None? || scanned == Some(scanned.value);
  }

  lemma CreateKeepsRule<P>(s: State<P>, from: Address, args: string, scanned: Option<string>)
    requires Inv(s) && forall u :: scanned == Some(u) <==> OneWord(args, u)
    ensures var (t, out) := CreateStep(Arrive(s, from), from, scanned); CreateRule(s, from, args, t, out)
  {
    ArriveArrives(s, from);
    assert scanned.None? || scanned == Some(scanned.value);
  }

  lemma GetKeepsRule<P>(s: State<P>, from: Address, args: string, scanned: Option<string>)
    requires Inv(s) && forall u :: scanned == Some(u) <==> OneWord(args, u)
    ensures GetRule(s, from, args, GetOutput(Arrive(s, from), from, scanned))
  {
    ArriveArrives(s, from);
    assert scanned.None? || scanned == Some(scanned.value);
  }

  // ---- Every datagram ----

  /** The step of a text that names a command is the step of the handler at its place. */
  lemma StepOfCommand<P>(s: State<P>, from: Address, text: string, i: nat, args: string)
    requires i < |CLIENT_COMMANDS| && Says(text, CLIENT_COMMANDS[i], args)
    ensures Step(s, Datagram(from, text)) == CommandStep(Arrive(s, from), from, HandlerAt(i, args))
  {
    ClientDispatch(text, i, args);
  }

  lemma LoginIsAnswered<P>(s: State<P>, from: Address, text: string, args: string)
    requires Inv(s) && Says(text, "LOGIN", args)
    ensures var (t, out) := Step(s, Datagram(from, text)); LoginRule(s, from, args, t, out)
  {
    ClientTable();
    StepOfCommand(s, from, text, 0, args);
    forall u, v
      ensures ScanTexts(LOGIN_ARGS, args) == Some((u, v)) <==> TwoWords(args, u, v)
    {
      TwoWordsIff(args, u, v);
    }
    LoginKeepsRule(s, from, args, ScanTexts(LOGIN_ARGS, args));
  }

  lemma MsgIsAnswered<P>(s: State<P>, from: Address, text: string, args: string)
    requires Inv(s) && Says(text, "MSG", args)
    ensures var (t, out) := Step(s, Datagram(from, text)); Arrives(s, from, t) && MsgRule(s, from, args, out)
  {
    ClientTable();
    StepOfCommand(s, from, text, 1, args);
    ArriveArrives(s, from);
    forall u, v
      ensures ScanTexts(MSG_ARGS, args) == Some((u, v)) <==> WordAndLine(args, u, v)
    {
      WordAndLineIff(args, u, v);
    }
    MsgKeepsRule(s, from, args, ScanTexts(MSG_ARGS, args));
  }

  lemma ScannedWords(args: string)
    ensures forall u :: ScanText(args) == Some(u) <==> OneWord(args, u)
  {
    forall u
      ensures ScanText(args) == Some(u) <==> OneWord(args, u)
    {
      OneWordIff(args, u);
    }
  }

  lemma P2PIsAnswered<P>(s: State<P>, from: Address, text: string, args: string)
    requires Inv(s) && Says(text, "P2P", args)
    ensures var (t, out) := Step(s, Datagram(from, text)); Arrives(s, from, t) && P2PRule(s, from, args, out)
  {
    ClientTable();
    StepOfCommand(s, from, text, 2, args);
    ArriveArrives(s, from);
    ScannedWords(args);
    P2PKeepsRule(s, from, args, ScanText(args));
  }

  lemma CreateIsAnswered<P>(s: State<P>, from: Address, text: string, args: string)
    requires Inv(s) && Says(text, "CREATEMULTICAST", args)
    ensures var (t, out) := Step(s, Datagram(from, text)); CreateRule(s, from, args, t, out)
  {
    ClientTable();
    StepOfCommand(s, from, text, 3, args);
    ScannedWords(args);
    CreateKeepsRule(s, from, args, ScanText(args));
  }

  lemma GetIsAnswered<P>(s: State<P>, from: Address, text: string, args: string)
    requires Inv(s) && Says(text, "GETMULTICAST", args)
    ensures var (t, out) := Step(s, Datagram(from, text)); Arrives(s, from, t) && GetRule(s, from, args, out)
  {
    ClientTable();
    StepOfCommand(s, from, text, 4, args);
    ArriveArrives(s, from);
    ScannedWords(args);
    GetKeepsRule(s, from, args, ScanText(args));
  }

  /** A text that names none of the five commands. */
  lemma OthersAreAnswered<P>(s: State<P>, from: Address, text: string)
    requires Inv(s)
    requires !Names(text, "LOGIN") && !Names(text, "MSG") && !Names(text, "P2P")
    requires !Names(text, "CREATEMULTICAST") && !Names(text, "GETMULTICAST")
    ensures var (t, out) := Step(s, Datagram(from, text));
            Arrives(s, from, t) && out == [ToSender(CommandNotFound)]
  {
    ClientTable();
    ClientUnknown(text);
    ArriveArrives(s, from);
  }

  // ---- Who may do what ----

  /** In any state at all, nothing is forwarded but for a logged-in sender whose record permits
      it, under that record's name, and to a session. */
  lemma OnlyPermittedForward<P>(s: State<P>, e: Event<P>, o: Output)
    requires o in Step(s, e).1 && o.Forward?
    ensures e.Datagram? && o.from == e.from && o.target in s.sessions
    ensures var x := SessionOf(s, e.from);
            && e.from in s.sessions && x.loggedIn && x.client.Some? && x.client.value in s.store
            && s.store[x.client.value].clientServer != 0 && s.store[x.client.value].username == o.sender
  {
    match e
    case Admin(line, block, junk) => AdminForwardsNothing(s, ParseAdmin(line), block, junk);
    case Datagram(from, text) => CommandForwards(Arrive(s, from), from, ParseClient(text), o);
  }

  lemma AdminForwardsNothing<P>(s: State<P>, command: AdminCommand, block: P, junk: int)
    ensures forall o | o in AdminStep(s, command, block, junk).1 :: o.ToSender?
  {
    if command.List? {
      ListingNamesUsers(Snapshot(s.store, Inorder(s.users)));
    }
  }

  lemma CommandForwards<P>(s: State<P>, from: Address, command: ClientCommand, o: Output)
    requires o in CommandStep(s, from, command).1 && o.Forward?
    ensures o.from == from && o.target in s.sessions && SessionOf(s, from).loggedIn
    ensures var x := SessionOf(s, from);
            && x.client.Some? && x.client.value in s.store
            && s.store[x.client.value].clientServer != 0 && s.store[x.client.value].username == o.sender
  {
  }

  /** In any state at all, a step that touches the groups is the datagram of a logged-in sender
      whose record permits it. */
  lemma OnlyPermittedCreate<P>(s: State<P>, e: Event<P>)
    requires var (t, out) := Step(s, e);
             || t.groups != s.groups || t.current != s.current || t.pool != s.pool
             || exists o | o in out :: o.ToSender? && o.reply.GroupCreated?
    ensures e.Datagram? && e.from in s.sessions
    ensures var x := SessionOf(s, e.from);
            && x.loggedIn && x.client.Some? && x.client.value in s.store && s.store[x.client.value].group != 0
  {
    match e
    case Admin(line, block, junk) => AdminMakesNoGroup(s, ParseAdmin(line), block, junk);
    case Datagram(from, text) => CommandMakes(Arrive(s, from), from, ParseClient(text));
  }

  lemma AdminMakesNoGroup<P>(s: State<P>, command: AdminCommand, block: P, junk: int)
    ensures var (t, out) := AdminStep(s, command, block, junk);
            && t.groups == s.groups && t.current == s.current && t.pool == s.pool
            && forall o | o in out :: o.ToSender? && !o.reply.GroupCreated?
  {
    if command.List? {
      ListingNamesUsers(Snapshot(s.store, Inorder(s.users)));
    }
  }

  lemma CommandMakes<P>(s: State<P>, from: Address, command: ClientCommand)
    requires var (t, out) := CommandStep(s, from, command);
             || t.groups != s.groups || t.current != s.current || t.pool != s.pool
             || exists o | o in out :: o.ToSender? && o.reply.GroupCreated?
    ensures var x := SessionOf(s, from);
            && x.loggedIn && x.client.Some? && x.client.value in s.store && s.store[x.client.value].group != 0
  {
  }
}
