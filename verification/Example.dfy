/** Small runs that meet everything the theorems of EndToEnd ask for: the file holds one user,
    who logs in, writes to herself, asks for her own address and creates a group. */
module Example {
  import opened Options
  import opened TreeModel
  import opened Comparators
  import opened Scanf
  import opened Protocol
  import opened ServerModel
  import opened Routing
  import opened EndToEnd
  import PlainTree

  /** The user of the file, with every permission. */
  function Ann(user: string, password: string, ip: string): Record {
    Record(user, password, ip, 0, 1, 1, 1)
  }

  function Before(ann: Record, pool: seq<string>): State<int> {
    Start([ann], pool, [0])
  }

  function Login(ann: Record, port: int): seq<Event<int>> {
    [Datagram(Address(ann.ip, port), RequestText(LoginRequest(ann.username, ann.password)))]
  }

  function LoggedIn(ann: Record, port: int, pool: seq<string>): State<int> {
    Run(Before(ann, pool), Login(ann, port))
  }

  lemma OneUser(ann: Record, pool: seq<string>)
    ensures Inv(Before(ann, pool)) && UserNamed(Before(ann, pool), ann.username) == Some(0)
    ensures Before(ann, pool) ==
            State(PlainTree.Bin(Leaf, Entry(ann.username, 0), Leaf), map[0 := ann], map[], map[], 0, pool, [ann])
  {
    StartIsSound([ann], pool, [0]);
    assert [ann][..0] == [] && [0][..0] == [];
    assert Load<int>([], []) == (Leaf, map[]);
  }

  lemma OneUserLogsIn(ann: Record, port: int, pool: seq<string>)
    requires Token(ann.username) && Token(ann.password)
    ensures FreshRun(Before(ann, pool), Login(ann, port))
    ensures LatestLogin(Before(ann, pool), Login(ann, port), 0) == Some(Address(ann.ip, port))
    ensures var t := LoggedIn(ann, port, pool);
            && SessionOf(t, Address(ann.ip, port)) == Session(Some(0), true)
            && Me(t, Address(ann.ip, port)) == ann.(port := port) && UserNamed(t, ann.username) == Some(0)
            && t.groups == map[] && t.current == 0 && t.pool == pool
  {
    OneUser(ann, pool);
    LoginTextLogsIn(Before(ann, pool), Address(ann.ip, port), ann.username, ann.password, 0);
    var events := Login(ann, port);
    assert events[..0] == [] && Run(Before(ann, pool), events[..0]) == Before(ann, pool);
  }

  /** What the theorems then say of the user: MSG and P2P to her own name come back to her. */
  lemma WritesToHerself(user: string, password: string, ip: string, body: string, server: Endian, source: int)
    requires Token(user) && Token(password) && Token(ip) && Body(body) && 0 <= source < 0x1_0000
    ensures var ann, port := Ann(user, password, ip), RawPort(server, source);
            var a, t := Address(ip, port), LoggedIn(ann, port, []);
            Step(t, Datagram(a, RequestText(MsgRequest(user, body)))) ==
            (t, [Forward(a, user, a, body), ToSender(MessageSent)])
  {
    var ann, port := Ann(user, password, ip), RawPort(server, source);
    OneUser(ann, []);
    OneUserLogsIn(ann, port, []);
    MessageReachesListener(
      Before(ann, []), Login(ann, port), Address(ip, port), user, body, 0, Address(ip, port), server, server, source);
  }

  lemma FindsHerself(user: string, password: string, ip: string, server: Endian, source: int)
    requires Token(user) && Token(password) && Token(ip) && 0 <= source < 0x1_0000
    ensures var ann, port := Ann(user, password, ip), RawPort(server, source);
            var a, t := Address(ip, port), LoggedIn(ann, port, []);
            Step(t, Datagram(a, RequestText(P2PRequest(user)))) == (t, [ToSender(PeerAt(user, ip, port))])
  {
    var ann, port := Ann(user, password, ip), RawPort(server, source);
    OneUser(ann, []);
    OneUserLogsIn(ann, port, []);
    PeerIsReached(
      Before(ann, []), Login(ann, port), Address(ip, port), user, 0, Address(ip, port), server, server, server, source);
  }

  /** A group she creates is found by its name. */
  lemma FindsHerGroup(user: string, password: string, ip: string, port: int, name: string, address: string)
    requires Token(user) && Token(password) && Token(name) && Token(address)
    ensures var a, t := Address(ip, port), LoggedIn(Ann(user, password, ip), port, [address]);
            var (u, out) := Step(t, Datagram(a, RequestText(CreateRequest(name))));
            && out == [ToSender(GroupCreated(name, address))]
            && Step(u, Datagram(a, RequestText(GetRequest(name)))) == (u, [ToSender(MulticastIp(address))])
  {
    var a, t := Address(ip, port), LoggedIn(Ann(user, password, ip), port, [address]);
    OneUserLogsIn(Ann(user, password, ip), port, [address]);
    CreateTextCreates(t, a, name);
    GroupAddressIsLearned(t, Datagram(a, RequestText(CreateRequest(name))), name, address, [], a);
  }
}
