/** The texts that travel between the two programs: what each side formats and what the other
    side makes of it. */
module Protocol {
  import opened Options
  import opened Scanf
  import opened CString

  // ---- What the server understands ----

  /** A dispatched datagram. The arguments are None where sscanf comes short, which each
      handler reports at its own place. */
  datatype ClientCommand =
    | Login(credentials: Option<(string, string)>)
    | Msg(args: Option<(string, string)>)
    | P2P(user: Option<string>)
    | CreateMulticast(group: Option<string>)
    | GetMulticast(group: Option<string>)
    | UnknownCommand

  const LOGIN_ARGS := [Word, Space, Word]
  const MSG_ARGS := [Word, Space, Line, Literal("s")]
  const ONE_ARG := [Word]
  const ADD_ARGS := [Word, Space, Word, Space, Word, Space, Number, Space, Number, Space, Number]

  /** client_commands, in dispatch order. */
  const CLIENT_COMMANDS := ["LOGIN", "MSG", "P2P", "CREATEMULTICAST", "GETMULTICAST"]

  /** commands, in dispatch order. */
  const ADMIN_COMMANDS := ["LIST", "ADD", "DEL", "QUIT"]

  /** strtok_r(command, " ", &args): the command keeps any leading spaces, and the arguments
      start after the space that ends the first token. */
  function SplitCommand(line: string): (string, string) {
    var lead := Span(SpaceChar, line);
    var end := lead + Span(NotSpaceChar, line[lead..]);
    (line[..end], if end < |line| then line[end + 1..] else "")
  }

  function ScanText(args: string): Option<string> {
    var f := Scan(ONE_ARG, args);
    if |f| == 1 && f[0].Text? then Some(f[0].text) else None
  }

  function ScanTexts(format: seq<Directive>, args: string): Option<(string, string)> {
    var f := Scan(format, args);
    if |f| == 2 && f[0].Text? && f[1].Text? then Some((f[0].text, f[1].text)) else None
  }

  /** client_cmd_functions: the handler at a place of the table, with what its sscanf finds. */
  function HandlerAt(i: nat, args: string): ClientCommand {
    if i == 0 then Login(ScanTexts(LOGIN_ARGS, args))
    else if i == 1 then Msg(ScanTexts(MSG_ARGS, args))
    else if i == 2 then P2P(ScanText(args))
    else if i == 3 then CreateMulticast(ScanText(args))
    else if i == 4 then GetMulticast(ScanText(args))
    else UnknownCommand
  }

  /** The place of a command in a dispatch table, and the table's length when it is not there. */
  function IndexOf(names: seq<string>, command: string): (i: nat)
    ensures i <= |names|
  {
    if names == [] || names[0] == command then 0 else 1 + IndexOf(names[1..], command)
  }

  lemma {:induction false} IndexIs(names: seq<string>, command: string, i: nat)
    requires i <= |names| && (i < |names| ==> names[i] == command)
    requires forall j | 0 <= j < i :: names[j] != command
    ensures IndexOf(names, command) == i
  {
    if i > 0 {
      IndexIs(names[1..], command, i - 1);
    }
  }

  /** client_cmd_function and the sscanf of the handler it finds. */
  function ParseClient(datagram: string): ClientCommand {
    var (command, args) := SplitCommand(FirstLine(datagram));
    HandlerAt(IndexOf(CLIENT_COMMANDS, command), args)
  }

  /** ADD's arguments: name, IP, password and the three permissions. */
  datatype NewUser = NewUser(username: string, ip: string, password: string, clientServer: int, p2p: int, group: int)

  datatype AdminCommand =
    | List
    | Add(user: Option<NewUser>)
    | Del(username: Option<string>)
    | Quit
    | UnknownAdmin

  function ScanNewUser(args: string): Option<NewUser> {
    var f := Scan(ADD_ARGS, args);
    if |f| == 6 && f[0].Text? && f[1].Text? && f[2].Text? && f[3].Int? && f[4].Int? && f[5].Int?
    then Some(NewUser(f[0].text, f[1].text, f[2].text, f[3].value, f[4].value, f[5].value))
    else None
  }

  /** cmd_functions, in dispatch order. */
  function AdminHandlerAt(i: nat, args: string): AdminCommand {
    if i == 0 then List
    else if i == 1 then Add(ScanNewUser(args))
    else if i == 2 then Del(ScanText(args))
    else if i == 3 then Quit
    else UnknownAdmin
  }

  /** cmd_function and the sscanf of the handler it finds. */
  function ParseAdmin(text: string): AdminCommand {
    var (command, args) := SplitCommand(FirstLine(text));
    AdminHandlerAt(IndexOf(ADMIN_COMMANDS, command), args)
  }

  // ---- What the client sends ----

  datatype Request =
    | LoginRequest(user: string, password: string)
    | MsgRequest(user: string, body: string)
    | P2PRequest(user: string)
    | CreateRequest(group: string)
    | GetRequest(group: string)

  function CommandName(r: Request): string {
    match r
    case LoginRequest(_, _) => "LOGIN"
    case MsgRequest(_, _) => "MSG"
    case P2PRequest(_) => "P2P"
    case CreateRequest(_) => "CREATEMULTICAST"
    case GetRequest(_) => "GETMULTICAST"
  }

  function ArgFields(r: Request): seq<Field> {
    match r
    case LoginRequest(u, p) => [Text(u), Text(p)]
    case MsgRequest(u, b) => [Text(u), Text(b)]
    case P2PRequest(u) => [Text(u)]
    case CreateRequest(g) => [Text(g)]
    case GetRequest(g) => [Text(g)]
  }

  /** The client's snprintf formats after the command name: one or two %s. */
  function SentArgs(r: Request): seq<Directive> {
    if r.LoginRequest? || r.MsgRequest? then [Word, Space, Word] else [Word]
  }

  function RequestText(r: Request): string {
    Print([Literal(CommandName(r)), Space] + SentArgs(r), ArgFields(r))
  }

  /** Tokens without white space; a message body without line ends or leading white space. */
  predicate Sendable(r: Request) {
    match r
    case LoginRequest(u, p) => Token(u) && Token(p)
    case MsgRequest(u, b) => Token(u) && Body(b)
    case P2PRequest(u) => Token(u)
    case CreateRequest(g) => Token(g)
    case GetRequest(g) => Token(g)
  }

  function Meant(r: Request): ClientCommand {
    match r
    case LoginRequest(u, p) => Login(Some((u, p)))
    case MsgRequest(u, b) => Msg(Some((u, b)))
    case P2PRequest(u) => P2P(Some(u))
    case CreateRequest(g) => CreateMulticast(Some(g))
    case GetRequest(g) => GetMulticast(Some(g))
  }

  lemma SplitAtFirstSpace(command: string, args: string)
    requires command != [] && forall c | c in command :: c != ' '
    ensures SplitCommand(command + " " + args) == (command, args)
  {
    var line := command + " " + args;
    assert line[0] == command[0] && command[0] in command;
    SpanIs(SpaceChar, line, 0);
    assert line[0..] == line;
    forall i | 0 <= i < |command|
      ensures Matches(NotSpaceChar, line[i])
    {
      assert line[i] == command[i] && command[i] in command;
    }
    SpanIs(NotSpaceChar, line, |command|);
    assert line[|command|] == ' ' && line[|command| + 1..] == args && line[..|command|] == command;
  }

  lemma PrintPlain(d: Directive, rest: seq<Directive>, fields: seq<Field>)
    ensures d == Space ==> Print([d] + rest, fields) == " " + Print(rest, fields)
    ensures d.Literal? ==> Print([d] + rest, fields) == d.text + Print(rest, fields)
  {
  }

  lemma PrintConversion(d: Directive, rest: seq<Directive>, f: Field, fields: seq<Field>)
    requires !d.Space? && !d.Literal?
    ensures Print([d] + rest, [f] + fields) == Head(f) + Print(rest, fields)
  {
  }

  lemma PrintTexts(d: Directive, e: Directive, u: string, v: string)
    requires !d.Space? && !d.Literal? && !e.Space? && !e.Literal?
    ensures Print([d], [Text(u)]) == u
    ensures Print([d, Space, e], [Text(u), Text(v)]) == u + " " + v
  {
    PrintConversion(d, [], Text(u), []);
    PrintConversion(e, [], Text(v), []);
    PrintPlain(Space, [e], [Text(v)]);
    PrintConversion(d, [Space, e], Text(u), [Text(v)]);
    assert [d] + [] == [d] && [e] + [] == [e] && [d] + [Space, e] == [d, Space, e] && [Space] + [e] == [Space, e];
    assert [Text(u)] + [] == [Text(u)] && [Text(v)] + [] == [Text(v)];
    assert [Text(u)] + [Text(v)] == [Text(u), Text(v)];
  }

  /** What follows the command name in a request. */
  function SentText(r: Request): string {
    if |ArgFields(r)| == 1 then ArgFields(r)[0].text else ArgFields(r)[0].text + " " + ArgFields(r)[1].text
  }

  lemma RequestLayout(r: Request)
    ensures RequestText(r) == CommandName(r) + " " + SentText(r)
  {
    var rest, f := SentArgs(r), ArgFields(r);
    assert [Literal(CommandName(r)), Space] + rest == [Literal(CommandName(r))] + ([Space] + rest);
    PrintPlain(Literal(CommandName(r)), [Space] + rest, f);
    PrintPlain(Space, rest, f);
    PrintTexts(Word, Word, f[0].text, f[|f| - 1].text);
  }

  /** Free of CR and LF. */
  predicate OneLine(s: string) {
    forall c | c in s :: c != '\r' && c != '\n'
  }

  lemma SpacedIsOneLine(a: string, b: string)
    requires OneLine(a) && OneLine(b)
    ensures OneLine(a + " " + b)
  {
  }

  lemma RequestIsOneLine(r: Request)
    requires Sendable(r)
    ensures FirstLine(RequestText(r)) == RequestText(r)
  {
    RequestLayout(r);
    var f := ArgFields(r);
    assert OneLine(f[0].text) && OneLine(f[|f| - 1].text) && OneLine(CommandName(r));
    SpacedIsOneLine(f[0].text, f[|f| - 1].text);
    SpacedIsOneLine(CommandName(r), SentText(r));
    FirstLineIsAll(RequestText(r));
  }

  lemma TwoTextsAreRead(last: Directive, u: string, v: string)
    requires Token(u) && ((last == Word && Token(v)) || (last == Line && Body(v)))
    ensures ScanTexts([Word, Space, last], u + " " + v) == Some((u, v))
  {
    GoodConversion(last, [], Text(v), []);
    GoodSpace([last], [Text(v)]);
    GoodConversion(Word, [Space, last], Text(u), [Text(v)]);
    PrintTexts(Word, last, u, v);
    assert [last] + [] == [last] && [Space] + [last] == [Space, last] && [Word] + [Space, last] == [Word, Space, last];
    assert [Text(v)] + [] == [Text(v)] && [Text(u)] + [Text(v)] == [Text(u), Text(v)];
    ScanInvertsPrint([Word, Space, last], [Text(u), Text(v)], "");
    assert u + " " + v + "" == u + " " + v;
  }

  lemma OneTextIsRead(u: string)
    requires Token(u)
    ensures ScanText(u) == Some(u)
  {
    PrintTexts(Word, Word, u, "");
    ScanInvertsPrint(ONE_ARG, [Text(u)], "");
    assert u + "" == u;
  }

  /** The table places of the commands a client sends. */
  lemma CommandPlace(r: Request)
    ensures IndexOf(CLIENT_COMMANDS, CommandName(r)) ==
            match r
            case LoginRequest(_, _) => 0
            case MsgRequest(_, _) => 1
            case P2PRequest(_) => 2
            case CreateRequest(_) => 3
            case GetRequest(_) => 4
  {
    var c := CLIENT_COMMANDS;
    var place := match r
      case LoginRequest(_, _) => 0
      case MsgRequest(_, _) => 1
      case P2PRequest(_) => 2
      case CreateRequest(_) => 3
      case GetRequest(_) => 4;
    assert |c[0]| == 5 && c[1][0] == 'M' && c[2][0] == 'P' && |c[3]| == 15 && |c[4]| == 12;
    IndexIs(c, CommandName(r), place);
  }

  lemma ArgsAreRead(r: Request)
    requires Sendable(r)
    ensures HandlerAt(IndexOf(CLIENT_COMMANDS, CommandName(r)), SentText(r)) == Meant(r)
  {
    CommandPlace(r);
    match r
    case LoginRequest(u, p) => TwoTextsAreRead(Word, u, p);
    case MsgRequest(u, b) =>
      TwoTextsAreRead(Line, u, b);
      assert [Word, Space, Line] + [Literal("s")] == MSG_ARGS;
      TrailingLiteral([Word, Space, Line], "s", SentText(r));
    case P2PRequest(u) => OneTextIsRead(u);
    case CreateRequest(g) => OneTextIsRead(g);
    case GetRequest(g) => OneTextIsRead(g);
  }

  lemma ScannedWordIsToken(args: string)
    requires ScanText(args).Some?
    ensures Token(ScanText(args).value)
  {
    SpanFacts(Visible, SkipSpace(args));
  }

  lemma SecondTextFits(last: Directive, args: string)
    requires last == Word || last == Line
    requires var f := Scan([Space, last], args); |f| == 1 && f[0].Text?
    ensures var v := Scan([Space, last], args)[0].text;
            && v != [] && !IsSpace(v[0]) && (forall c | c in v :: c in args && c != '\n')
            && (last == Word ==> Token(v))
  {
    assert [Space, last][1..] == [last];
    var s := SkipSpace(args);
    SpanFacts(Blank, args);
    SpanFacts(Visible, SkipSpace(s));
    SpanFacts(InLine, s);
    SpanFacts(Blank, s);
  }

  lemma ScannedTextsFit(last: Directive, args: string)
    requires last == Word || last == Line
    requires ScanTexts([Word, Space, last], args).Some?
    ensures var (u, v) := ScanTexts([Word, Space, last], args).value;
            && Token(u) && v != [] && !IsSpace(v[0]) && (forall c | c in v :: c in args && c != '\n')
            && (last == Word ==> Token(v))
  {
    assert [Word, Space, last][1..] == [Space, last];
    var s := SkipSpace(args);
    SpanFacts(Visible, s);
    SecondTextFits(last, s[Span(Visible, s)..]);
  }

  lemma FirstLineIsOneLine(s: string)
    ensures OneLine(FirstLine(s))
  {
    SpanFacts(BeforeLineEnd, s);
  }

  lemma ArgsWithinLine(line: string)
    ensures forall c | c in SplitCommand(line).1 :: c in line
  {
  }

  lemma ScannedMessageFits(line: string)
    requires OneLine(line) && ScanTexts(MSG_ARGS, SplitCommand(line).1).Some?
    ensures var (u, v) := ScanTexts(MSG_ARGS, SplitCommand(line).1).value; Token(u) && Body(v)
  {
    var args := SplitCommand(line).1;
    assert [Word, Space, Line] + [Literal("s")] == MSG_ARGS;
    TrailingLiteral([Word, Space, Line], "s", args);
    ScannedTextsFit(Line, args);
    ArgsWithinLine(line);
  }

  /** The scan of the request's handler finds the request's fields. */
  predicate Scanned(r: Request, args: string) {
    match r
    case LoginRequest(u, p) => ScanTexts(LOGIN_ARGS, args) == Some((u, p))
    case MsgRequest(u, b) => ScanTexts(MSG_ARGS, args) == Some((u, b))
    case P2PRequest(u) => ScanText(args) == Some(u)
    case CreateRequest(g) => ScanText(args) == Some(g)
    case GetRequest(g) => ScanText(args) == Some(g)
  }

  lemma MeantIsScanned(r: Request, i: nat, args: string)
    requires HandlerAt(i, args) == Meant(r)
    ensures Scanned(r, args)
  {
  }

  lemma ScannedIsSendable(r: Request, line: string)
    requires OneLine(line) && Scanned(r, SplitCommand(line).1)
    ensures Sendable(r)
  {
    var args := SplitCommand(line).1;
    match r
    case LoginRequest(_, _) => ScannedTextsFit(Word, args);
    case MsgRequest(_, _) => ScannedMessageFits(line);
    case _ => ScannedWordIsToken(args);
  }

  /** Whatever the server reads as this request, the request could be sent. */
  lemma OnlySendableIsMeant(r: Request)
    requires ParseClient(RequestText(r)) == Meant(r)
    ensures Sendable(r)
  {
    var line := FirstLine(RequestText(r));
    FirstLineIsOneLine(RequestText(r));
    MeantIsScanned(r, IndexOf(CLIENT_COMMANDS, SplitCommand(line).0), SplitCommand(line).1);
    ScannedIsSendable(r, line);
  }

  lemma SendableIsMeant(r: Request)
    requires Sendable(r)
    ensures ParseClient(RequestText(r)) == Meant(r)
  {
    RequestIsOneLine(r);
    RequestLayout(r);
    SplitAtFirstSpace(CommandName(r), SentText(r));
    ArgsAreRead(r);
  }

  /** The server understands a request as it was meant if and only if its names and passwords
      are non-empty and free of white space, and a message body is non-empty, free of line ends
      and does not start with white space. */
  lemma RequestsAreUnderstood(r: Request)
    ensures ParseClient(RequestText(r)) == Meant(r) <==> Sendable(r)
  {
    if Sendable(r) {
      SendableIsMeant(r);
    } else if ParseClient(RequestText(r)) == Meant(r) {
      OnlySendableIsMeant(r);
    }
  }

  // ---- What the server answers and the client reads ----

  const PORT_REPLY := [Number]
  const PEER_REPLY := [Word, Space, Literal("IP:"), Space, Word, Space, Literal("Port:"), Space, Number]
  const MULTICAST_REPLY := [Literal("Multicast"), Space, Literal("IP"), Space, Word]

  function PortText(port: int): string {
    Print(PORT_REPLY, [Int(port)]) + "\n"
  }

  function PeerText(user: string, ip: string, port: int): string {
    Print(PEER_REPLY, [Text(user), Text(ip), Int(port)]) + "\n"
  }

  function MulticastText(ip: string): string {
    Print(MULTICAST_REPLY, [Text(ip)]) + "\n"
  }

  /** The sscanf of authenticate. */
  function ReadPort(reply: string): Option<int> {
    var f := Scan(PORT_REPLY, reply);
    if |f| == 1 && f[0].Int? then Some(f[0].value) else None
  }

  /** The sscanf of send_p2p. */
  function ReadPeer(reply: string): Option<(string, string, int)> {
    var f := Scan(PEER_REPLY, reply);
    if |f| == 3 && f[0].Text? && f[1].Text? && f[2].Int? then Some((f[0].text, f[1].text, f[2].value)) else None
  }

  /** starts_with and then the sscanf of connect_multicast. */
  function ReadMulticast(reply: string): Option<string> {
    if "Multicast IP" <= reply then
      var f := Scan(MULTICAST_REPLY, reply);
      if |f| == 1 && f[0].Text? then Some(f[0].text) else None
    else None
  }

  lemma PortIsRead(port: int)
    ensures ReadPort(PortText(port)) == Some(port)
  {
    ScanInvertsPrint(PORT_REPLY, [Int(port)], "\n");
  }

  /** The reply format from its second word on, and from its third. */
  const PEER_AFTER_NAME := [Literal("IP:"), Space, Word, Space, Literal("Port:"), Space, Number]
  const PEER_AFTER_IP := [Literal("Port:"), Space, Number]

  lemma AfterIpIsGood(port: int)
    ensures Good(PEER_AFTER_IP, [Int(port)])
  {
    GoodConversion(Number, [], Int(port), []);
    assert [Number] + [] == [Number] && [Int(port)] + [] == [Int(port)];
    GoodSpace([Number], [Int(port)]);
    GoodLiteral("Port:", [Space] + [Number], [Int(port)]);
    assert [Literal("Port:")] + ([Space] + [Number]) == PEER_AFTER_IP;
  }

  lemma AfterNameIsGood(ip: string, port: int)
    requires Token(ip)
    ensures Good(PEER_AFTER_NAME, [Text(ip), Int(port)])
  {
    AfterIpIsGood(port);
    GoodSpace(PEER_AFTER_IP, [Int(port)]);
    var g := [Word] + ([Space] + PEER_AFTER_IP);
    GoodConversion(Word, [Space] + PEER_AFTER_IP, Text(ip), [Int(port)]);
    assert [Text(ip)] + [Int(port)] == [Text(ip), Int(port)];
    GoodSpace(g, [Text(ip), Int(port)]);
    GoodLiteral("IP:", [Space] + g, [Text(ip), Int(port)]);
    assert [Literal("IP:")] + ([Space] + g) == PEER_AFTER_NAME;
  }

  lemma PeerFormatIsGood(user: string, ip: string, port: int)
    requires Token(user) && Token(ip)
    ensures Good(PEER_REPLY, [Text(user), Text(ip), Int(port)])
  {
    AfterNameIsGood(ip, port);
    var f := [Text(ip), Int(port)];
    GoodSpace(PEER_AFTER_NAME, f);
    GoodConversion(Word, [Space] + PEER_AFTER_NAME, Text(user), f);
    assert [Word] + ([Space] + PEER_AFTER_NAME) == PEER_REPLY;
    assert [Text(user)] + f == [Text(user), Text(ip), Int(port)];
  }

  lemma PeerIsRead(user: string, ip: string, port: int)
    requires Token(user) && Token(ip)
    ensures ReadPeer(PeerText(user, ip, port)) == Some((user, ip, port))
  {
    PeerFormatIsGood(user, ip, port);
    ScanInvertsPrint(PEER_REPLY, [Text(user), Text(ip), Int(port)], "\n");
  }

  lemma MulticastFormatIsGood(ip: string)
    requires Token(ip)
    ensures Good(MULTICAST_REPLY, [Text(ip)])
  {
    var f := [Text(ip)];
    var g: seq<Directive> := [Literal("IP")] + [Space, Word];
    GoodConversion(Word, [], Text(ip), []);
    assert [Word] + [] == [Word] && [Text(ip)] + [] == f;
    GoodSpace([Word], f);
    assert [Space] + [Word] == [Space, Word];
    GoodLiteral("IP", [Space, Word], f);
    GoodSpace(g, f);
    GoodLiteral("Multicast", [Space] + g, f);
    assert [Literal("Multicast")] + ([Space] + g) == MULTICAST_REPLY;
  }

  lemma MulticastTextStarts(ip: string)
    ensures "Multicast IP" <= MulticastText(ip)
  {
    var f := [Text(ip)];
    var g: seq<Directive> := [Literal("IP")] + [Space, Word];
    assert [Literal("Multicast")] + ([Space] + g) == MULTICAST_REPLY;
    PrintPlain(Literal("IP"), [Space, Word], f);
    PrintPlain(Space, g, f);
    PrintPlain(Literal("Multicast"), [Space] + g, f);
    StartsWithName(Print([Space, Word], f) + "\n");
    assert MulticastText(ip) == "Multicast" + (" " + ("IP" + Print([Space, Word], f))) + "\n";
  }

  lemma StartsWithName(rest: string)
    ensures "Multicast IP" <= "Multicast" + (" " + ("IP" + rest))
  {
  }

  lemma MulticastIsRead(ip: string)
    requires Token(ip)
    ensures ReadMulticast(MulticastText(ip)) == Some(ip)
  {
    MulticastFormatIsGood(ip);
    ScanInvertsPrint(MULTICAST_REPLY, [Text(ip)], "\n");
    MulticastTextStarts(ip);
  }

  lemma PrintLast(d: Directive, f: Field)
    requires !d.Space? && !d.Literal?
    ensures Print([d], [f]) == Head(f)
  {
  }

  /** The answers that are read, letter by letter. */
  lemma AnswersSpelledOut(user: string, ip: string, port: int)
    ensures PortText(port) == Decimal(port) + "\n"
    ensures PeerText(user, ip, port) == user + " IP: " + ip + " Port: " + Decimal(port) + "\n"
    ensures MulticastText(ip) == "Multicast IP " + ip + "\n"
  {
    PrintLast(Number, Int(port));
    PeerSpelledOut(user, ip, port);
    MulticastSpelledOut(ip);
  }

  lemma MulticastSpelledOut(ip: string)
    ensures MulticastText(ip) == "Multicast IP " + ip + "\n"
  {
    var f := [Text(ip)];
    PrintLast(Word, Text(ip));
    PrintPlain(Space, [Word], f);
    PrintPlain(Literal("IP"), [Space] + [Word], f);
    PrintPlain(Space, [Literal("IP")] + ([Space] + [Word]), f);
    PrintPlain(Literal("Multicast"), [Space] + ([Literal("IP")] + ([Space] + [Word])), f);
    assert [Literal("Multicast")] + ([Space] + ([Literal("IP")] + ([Space] + [Word]))) == MULTICAST_REPLY;
  }

  lemma AfterIpSpelledOut(port: int)
    ensures Print(PEER_AFTER_IP, [Int(port)]) == "Port: " + Decimal(port)
  {
    var f := [Int(port)];
    PrintLast(Number, Int(port));
    PrintPlain(Space, [Number], f);
    PrintPlain(Literal("Port:"), [Space] + [Number], f);
    assert [Literal("Port:")] + ([Space] + [Number]) == PEER_AFTER_IP;
  }

  lemma AfterNameSpelledOut(ip: string, port: int)
    ensures Print(PEER_AFTER_NAME, [Text(ip)] + [Int(port)]) == "IP: " + (ip + (" " + ("Port: " + Decimal(port))))
  {
    var f := [Int(port)];
    AfterIpSpelledOut(port);
    PrintPlain(Space, PEER_AFTER_IP, f);
    PrintConversion(Word, [Space] + PEER_AFTER_IP, Text(ip), f);
    PrintPlain(Space, [Word] + ([Space] + PEER_AFTER_IP), [Text(ip)] + f);
    PrintPlain(Literal("IP:"), [Space] + ([Word] + ([Space] + PEER_AFTER_IP)), [Text(ip)] + f);
    assert [Literal("IP:")] + ([Space] + ([Word] + ([Space] + PEER_AFTER_IP))) == PEER_AFTER_NAME;
  }

  lemma PeerSpelledOut(user: string, ip: string, port: int)
    ensures PeerText(user, ip, port) == user + " IP: " + ip + " Port: " + Decimal(port) + "\n"
  {
    var f := [Text(ip)] + [Int(port)];
    AfterNameSpelledOut(ip, port);
    PrintPlain(Space, PEER_AFTER_NAME, f);
    PrintConversion(Word, [Space] + PEER_AFTER_NAME, Text(user), f);
    assert [Word] + ([Space] + PEER_AFTER_NAME) == PEER_REPLY;
    assert [Text(user)] + f == [Text(user), Text(ip), Int(port)];
    PeerLayout(user, ip, Decimal(port));
  }

  lemma PeerLayout(user: string, ip: string, port: string)
    ensures user + (" " + ("IP: " + (ip + (" " + ("Port: " + port))))) + "\n" ==
            user + " IP: " + ip + " Port: " + port + "\n"
  {
  }
}
