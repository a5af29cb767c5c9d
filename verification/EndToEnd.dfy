/** From the text a client sends to the port it is reached at. */
module EndToEnd {
  import opened Options
  import opened Comparators
  import opened Scanf
  import opened Protocol
  import opened ServerModel
  import opened Routing
  import opened Groups
  import opened TreeModel
  import opened Texts
  import opened Answers

  // ---- Ports ----

  /** The byte order of a host. */
  datatype Endian = Little | Big

  function Swap(w: int): int
    requires 0 <= w < 0x1_0000
  {
    (w % 0x100) * 0x100 + w / 0x100
  }

  /** htons: the argument becomes a uint16_t, and its bytes change places on a little-endian
      host. */
  function Htons(e: Endian, v: int): (w: int)
    ensures 0 <= w < 0x1_0000
  {
    var w := v % 0x1_0000;
    if e.Little? then Swap(w) else w
  }

  /** The port a sin_port field stands for on a host: its two bytes, high byte first. */
  function PortIn(e: Endian, sinPort: int): int
    requires 0 <= sinPort < 0x1_0000
  {
    if e.Little? then Swap(sinPort) else sinPort
  }

  /** What recvfrom leaves in sin_port for a datagram from this port, which client.c:50 stores
      as it is. */
  function RawPort(e: Endian, source: int): int {
    Htons(e, source)
  }

  lemma SwapTwice(w: int)
    requires 0 <= w < 0x1_0000
    ensures 0 <= Swap(w) < 0x1_0000 && Swap(Swap(w)) == w
    ensures Swap(w) == w <==> w / 0x100 == w % 0x100
  {
  }

  lemma PortRoundTrip(e: Endian, w: int)
    requires 0 <= w < 0x1_0000
    ensures PortIn(e, Htons(e, w)) == w
  {
  }

  /** Whatever the byte orders of the three hosts: the port the client listens on, the port the
      server forwards messages to and the port a peer sends to are all the number the server
      stored and printed. */
  lemma PortsAgree(server: Endian, client: Endian, peer: Endian, source: int)
    requires 0 <= source < 0x1_0000
    ensures var raw := RawPort(server, source);
            && ReadPort(PortText(raw)) == Some(raw)
            && PortIn(client, Htons(client, raw)) == raw
            && PortIn(server, Htons(server, raw)) == raw
            && PortIn(peer, Htons(peer, raw)) == raw
  {
    var raw := RawPort(server, source);
    PortIsRead(raw);
    PortRoundTrip(client, raw);
    PortRoundTrip(server, raw);
    PortRoundTrip(peer, raw);
  }

  /** That number is the client's own source port if and only if the server is big-endian or
      the two bytes of the port are equal. */
  lemma ListensOnOwnPortIff(server: Endian, client: Endian, source: int)
    requires 0 <= source < 0x1_0000
    ensures PortIn(client, Htons(client, RawPort(server, source))) == source
            <==> server.Big? || source / 0x100 == source % 0x100
  {
    assert source % 0x1_0000 == source;
    SwapTwice(source);
    PortRoundTrip(client, RawPort(server, source));
  }

  // ---- A message reaches whoever logged in last ----

  /** A request that can be sent is the step of the command it means. */
  lemma TextIsCommand<P>(s: State<P>, from: Address, r: Request)
    requires Sendable(r)
    ensures Step(s, Datagram(from, RequestText(r))) == CommandStep(Arrive(s, from), from, Meant(r))
  {
    RequestsAreUnderstood(r);
  }

  /** What LOGIN asks for. */
  predicate Admits<P(==)>(s: State<P>, from: Address, user: string, password: string) {
    && !SessionOf(s, from).loggedIn
    && UserNamed(s, user).Some?
    && At(s, UserNamed(s, user).value).ip == from.ip
    && At(s, UserNamed(s, user).value).password == password
  }

  lemma LoginOutcome<P>(s: State<P>, from: Address, user: string, password: string)
    requires Inv(s)
    ensures var (t, out) := LoginStep(Arrive(s, from), from, Some((user, password)));
            if Admits(s, from, user, password) then
              var q := UserNamed(s, user).value;
              var r := At(s, q);
              && t == s.(sessions := s.sessions[from := Session(Some(q), true)],
                         store := s.store[q := r.(port := from.port)])
              && out == [ToSender(LoggedIn), ToSender(PortIs(from.port)),
                         ToSender(Permissions(r.clientServer, r.p2p, r.group))]
            else t == Arrive(s, from) && out == [ToSender(Refusal(s, from, user))]
  {
    var s1 := Arrive(s, from);
    var bound := Session(UserNamed(s, user), true);
    assert s1.sessions[from := bound] == s.sessions[from := bound];
  }

  /** The first reason LOGIN finds against it. */
  function Refusal<P(==)>(s: State<P>, from: Address, user: string): Reply {
    if SessionOf(s, from).loggedIn then AlreadyLoggedIn
    else if UserNamed(s, user).None? then UserNotFound
    else if At(s, UserNamed(s, user).value).ip != from.ip then DifferentIp
    else WrongPassword
  }

  /** The client's LOGIN text logs its session in as a record if and only if the session is not
      logged in yet, the record is the user's, and IP and password are the record's; the port in
      the answer is then the session's. Otherwise one answer says why, and nothing changes. */
  lemma LoginTextLogsIn<P>(s: State<P>, from: Address, user: string, password: string, p: P)
    requires Inv(s) && Token(user) && Token(password)
    ensures var e := Datagram(from, RequestText(LoginRequest(user, password)));
            var (t, out) := Step(s, e);
            && (LogsIn(s, e, p) <==> Admits(s, from, user, password) && UserNamed(s, user) == Some(p))
            && if Admits(s, from, user, password) then
                 var q := UserNamed(s, user).value;
                 var r := At(s, q);
                 && t == s.(sessions := s.sessions[from := Session(Some(q), true)],
                            store := s.store[q := r.(port := from.port)])
                 && out == [ToSender(LoggedIn), ToSender(PortIs(from.port)),
                            ToSender(Permissions(r.clientServer, r.p2p, r.group))]
               else t == Arrive(s, from) && out == [ToSender(Refusal(s, from, user))]
  {
    TextIsCommand(s, from, LoginRequest(user, password));
    LoginOutcome(s, from, user, password);
  }

  /** A MSG text, sent in any reachable state by a logged-in session that may send, is forwarded
      to the session that logged in last as its user, at the port that session's client listens
      on. */
  lemma MessageReachesListener<P>(
    s: State<P>, events: seq<Event<P>>, from: Address, user: string, body: string, p: P, a: Address,
    server: Endian, client: Endian, source: int)
    requires Inv(s) && FreshRun(s, events) && Token(user) && Body(body)
    requires SessionOf(Run(s, events), from).loggedIn && Me(Run(s, events), from).clientServer != 0
    requires UserNamed(Run(s, events), user) == Some(p) && LatestLogin(s, events, p) == Some(a)
    requires 0 <= source < 0x1_0000 && a.port == RawPort(server, source)
    ensures var t := Run(s, events);
            Step(t, Datagram(from, RequestText(MsgRequest(user, body)))) ==
            (t, [Forward(a, Me(t, from).username, from, body), ToSender(MessageSent)])
    ensures ReadPort(PortText(a.port)).Some?
    ensures PortIn(server, Htons(server, a.port)) == PortIn(client, Htons(client, ReadPort(PortText(a.port)).value))
  {
    RequestsAreUnderstood(MsgRequest(user, body));
    RoutedToLatest(s, events, from, user, body, p, a);
    PortsAgree(server, client, client, source);
  }

  /** The same for P2P: the asking client reads the peer's name, IP and port, and sends to the
      port the peer listens on. */
  lemma PeerIsReached<P>(
    s: State<P>, events: seq<Event<P>>, from: Address, user: string, p: P, a: Address,
    server: Endian, client: Endian, peer: Endian, source: int)
    requires Inv(s) && FreshRun(s, events) && Token(user) && Token(a.ip)
    requires SessionOf(Run(s, events), from).loggedIn && Me(Run(s, events), from).p2p != 0
    requires UserNamed(Run(s, events), user) == Some(p) && LatestLogin(s, events, p) == Some(a)
    requires 0 <= source < 0x1_0000 && a.port == RawPort(server, source)
    ensures var t := Run(s, events);
            Step(t, Datagram(from, RequestText(P2PRequest(user)))) == (t, [ToSender(PeerAt(user, a.ip, a.port))])
    ensures ReadPeer(PeerText(user, a.ip, a.port)) == Some((user, a.ip, a.port))
    ensures ReadPort(PortText(a.port)).Some?
    ensures PortIn(client, Htons(client, a.port)) == PortIn(peer, Htons(peer, ReadPort(PortText(a.port)).value))
  {
    RequestsAreUnderstood(P2PRequest(user));
    RoutedToLatest(s, events, from, user, "", p, a);
    PeerIsRead(user, a.ip, a.port);
    PortsAgree(server, client, peer, source);
  }

  lemma CreateOutcome<P>(s: State<P>, from: Address, name: string)
    ensures CreateStep(Arrive(s, from), from, Some(name)) ==
            if !SessionOf(s, from).loggedIn then (Arrive(s, from), [ToSender(NotLoggedIn)])
            else if Me(s, from).group == 0 then (s, [ToSender(NoPermission)])
            else if name in s.groups then (s, [ToSender(DuplicatedGroup)])
            else if s.current >= |s.pool| then (s, [ToSender(NoMoreGroups)])
            else (s.(groups := s.groups[name := s.pool[s.current]], current := s.current + 1),
                  [ToSender(GroupCreated(name, s.pool[s.current]))])
  {
  }

  /** The CREATEMULTICAST text of any session: refused to one that is not logged in or whose
      record does not permit it; otherwise it creates the group, with the next address of the
      pool, unless the name is taken or the pool used up. */
  lemma CreateTextCreates<P>(s: State<P>, from: Address, name: string)
    requires Token(name)
    ensures Step(s, Datagram(from, RequestText(CreateRequest(name)))) ==
            if !SessionOf(s, from).loggedIn then (Arrive(s, from), [ToSender(NotLoggedIn)])
            else if Me(s, from).group == 0 then (s, [ToSender(NoPermission)])
            else if name in s.groups then (s, [ToSender(DuplicatedGroup)])
            else if s.current >= |s.pool| then (s, [ToSender(NoMoreGroups)])
            else (s.(groups := s.groups[name := s.pool[s.current]], current := s.current + 1),
                  [ToSender(GroupCreated(name, s.pool[s.current]))])
  {
    TextIsCommand(s, from, CreateRequest(name));
    CreateOutcome(s, from, name);
  }

  /** The MSG text of any session: refused to one that is not logged in or whose record does not
      permit it; otherwise it goes to the session at the user's address, if there is such a user
      and such a session. */
  lemma MsgTextIsAnswered<P>(s: State<P>, from: Address, user: string, body: string)
    requires Inv(s) && Token(user) && Body(body)
    ensures var (t, out) := Step(s, Datagram(from, RequestText(MsgRequest(user, body))));
            && Arrives(s, from, t)
            && if !IsIn(s, from) then out == [ToSender(NotLoggedIn)]
               else if Mine(s, from).clientServer == 0 then out == [ToSender(NoPermission)]
               else if user !in Contents(s.users) then out == [ToSender(UserNotFound)]
               else
                 var a := Address(Theirs(s, user).ip, Theirs(s, user).port);
                 if a !in s.sessions then out == [ToSender(NoUserSession)]
                 else out == [Forward(a, Mine(s, from).username, from, body), ToSender(MessageSent)]
  {
    var r := MsgRequest(user, body);
    RequestSays(r);
    MsgIsAnswered(s, from, RequestText(r), SentText(r));
    assert IsIn(s, from) && Mine(s, from).clientServer != 0 ==>
             MsgSent(s, from, user, body, Step(s, Datagram(from, RequestText(r))).1);
  }

  lemma GetTextIsAnswered<P>(t: State<P>, who: Address, name: string, ip: string)
    requires Token(name) && SessionOf(t, who).loggedIn && GetOutput(t, who, Some(name)) == [ToSender(MulticastIp(ip))]
    ensures Step(t, Datagram(who, RequestText(GetRequest(name)))) == (t, [ToSender(MulticastIp(ip))])
  {
    RequestsAreUnderstood(GetRequest(name));
  }

  /** A group is learned by name: once CREATEMULTICAST has answered it with an address, the
      GETMULTICAST text of any session that may ask is answered with that address, and the
      asking client reads it. */
  lemma GroupAddressIsLearned<P>(
    s: State<P>, create: Event<P>, name: string, ip: string, between: seq<Event<P>>, who: Address)
    requires Step(s, create).1 == [ToSender(GroupCreated(name, ip))]
    requires Token(name) && Token(ip)
    requires var t := Run(Step(s, create).0, between);
             SessionOf(t, who).loggedIn && Me(t, who).group != 0
    ensures var t := Run(Step(s, create).0, between);
            Step(t, Datagram(who, RequestText(GetRequest(name)))) == (t, [ToSender(MulticastIp(ip))])
    ensures ReadMulticast(MulticastText(ip)) == Some(ip)
  {
    CreatedThenFound(s, create, name, ip, between, who);
    GetTextIsAnswered(Run(Step(s, create).0, between), who, name, ip);
    MulticastIsRead(ip);
  }
}
