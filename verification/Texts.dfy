/** What the server makes of a text, said of the text itself: which command a line names, and
    which arguments follow it. */
module Texts {
  import opened Options
  import opened Scanf
  import opened CString
  import opened ScanLaw
  import opened Protocol

  // ---- Lines ----

  /** The first line is what stands before the first CR or LF. */
  lemma FirstLineLaw(s: string, line: string)
    ensures FirstLine(s) == line <==>
            OneLine(line) && line <= s && (|line| < |s| ==> s[|line|] == '\r' || s[|line|] == '\n')
  {
    SpanFacts(BeforeLineEnd, s);
    if OneLine(line) && line <= s && (|line| < |s| ==> s[|line|] == '\r' || s[|line|] == '\n') {
      assert forall i | 0 <= i < |line| :: s[i] == line[i] && line[i] in line;
      SpanIs(BeforeLineEnd, s, |line|);
    }
  }

  /** The line is this command, with these arguments after one space or with none. */
  predicate Says(text: string, name: string, args: string) {
    FirstLine(text) == name + " " + args || (FirstLine(text) == name && args == "")
  }

  /** The line names this command, whatever its arguments. */
  predicate Names(text: string, name: string) {
    FirstLine(text) == name || name + " " <= FirstLine(text)
  }

  predicate Name(name: string) {
    name != "" && ' ' !in name
  }

  lemma NamesSays(text: string, name: string, args: string)
    ensures Says(text, name, args) ==> Names(text, name)
    ensures Names(text, name) && FirstLine(text) != name ==> Says(text, name, FirstLine(text)[|name| + 1..])
  {
    if Names(text, name) && FirstLine(text) != name {
      var line := FirstLine(text);
      assert line == line[..|name| + 1] + line[|name| + 1..];
    }
  }

  lemma SplitsInto(line: string, name: string)
    requires Name(name)
    ensures line == name ==> SplitCommand(line) == (name, "")
    ensures name + " " <= line ==> SplitCommand(line) == (name, line[|name| + 1..])
  {
    if name + " " <= line {
      assert line == name + " " + line[|name| + 1..];
      SplitAtFirstSpace(name, line[|name| + 1..]);
    } else if line == name {
      assert line[0] in name && line[0..] == line;
      SpanIs(SpaceChar, line, 0);
      assert forall i | 0 <= i < |line| :: line[i] in name;
      SpanIs(NotSpaceChar, line, |line|);
      assert line[..|line|] == line;
    }
  }

  lemma SplitNames(line: string, name: string)
    requires Name(name) && SplitCommand(line).0 == name
    ensures line == name || name + " " <= line
  {
    var lead := Span(SpaceChar, line);
    SpanFacts(SpaceChar, line);
    assert name[0] in name && name[0] == line[0];
    assert line[0..] == line;
    SpanFacts(NotSpaceChar, line);
    assert |name| < |line| ==> line[|name|] == ' ' && line[..|name| + 1] == name + " ";
  }

  /** The command of a split line is this one if and only if the line names it. */
  lemma SplitLaw(text: string, name: string, args: string)
    requires Name(name)
    ensures SplitCommand(FirstLine(text)).0 == name <==> Names(text, name)
    ensures Says(text, name, args) ==> SplitCommand(FirstLine(text)) == (name, args)
  {
    var line := FirstLine(text);
    SplitsInto(line, name);
    if SplitCommand(line).0 == name {
      SplitNames(line, name);
    }
    if line == name + " " + args {
      assert line[..|name| + 1] == name + " " && line[|name| + 1..] == args;
    }
  }

  // ---- Dispatch ----

  /** A table of different commands. */
  predicate Table(names: seq<string>) {
    && (forall i | 0 <= i < |names| :: Name(names[i]))
    && (forall i, j | 0 <= i < j < |names| :: names[i] != names[j])
  }

  lemma ClientTable()
    ensures CLIENT_COMMANDS[0] == "LOGIN" && CLIENT_COMMANDS[1] == "MSG" && CLIENT_COMMANDS[2] == "P2P"
    ensures CLIENT_COMMANDS[3] == "CREATEMULTICAST" && CLIENT_COMMANDS[4] == "GETMULTICAST"
    ensures |CLIENT_COMMANDS| == 5 && Table(CLIENT_COMMANDS)
  {
    var c := CLIENT_COMMANDS;
    assert |c[0]| == 5 && c[1][0] == 'M' && c[2][0] == 'P' && |c[1]| == |c[2]| == 3 && |c[3]| == 15 && |c[4]| == 12;
  }

  lemma AdminTable()
    ensures ADMIN_COMMANDS[0] == "LIST" && ADMIN_COMMANDS[1] == "ADD" && ADMIN_COMMANDS[2] == "DEL"
    ensures ADMIN_COMMANDS[3] == "QUIT"
    ensures |ADMIN_COMMANDS| == 4 && Table(ADMIN_COMMANDS)
  {
    var c := ADMIN_COMMANDS;
    assert c[0][0] == 'L' && c[1][0] == 'A' && c[2][0] == 'D' && c[3][0] == 'Q';
  }

  /** A line that names an entry of a table is sent to that entry, and a line that names none to
      none. */
  lemma TableLaw(names: seq<string>, text: string, i: nat, args: string)
    requires Table(names)
    ensures i < |names| && Says(text, names[i], args) ==>
              SplitCommand(FirstLine(text)) == (names[i], args) && IndexOf(names, names[i]) == i
    ensures (forall j | 0 <= j < |names| :: !Names(text, names[j])) ==>
              IndexOf(names, SplitCommand(FirstLine(text)).0) == |names|
  {
    if i < |names| && Says(text, names[i], args) {
      SplitLaw(text, names[i], args);
      IndexIs(names, names[i], i);
    }
    if forall j | 0 <= j < |names| :: !Names(text, names[j]) {
      forall j | 0 <= j < |names|
        ensures names[j] != SplitCommand(FirstLine(text)).0
      {
        SplitLaw(text, names[j], args);
      }
      IndexIs(names, SplitCommand(FirstLine(text)).0, |names|);
    }
  }

  lemma ClientDispatch(text: string, i: nat, args: string)
    requires i < |CLIENT_COMMANDS| && Says(text, CLIENT_COMMANDS[i], args)
    ensures ParseClient(text) == HandlerAt(i, args)
  {
    ClientTable();
    TableLaw(CLIENT_COMMANDS, text, i, args);
  }

  lemma ClientUnknown(text: string)
    requires forall j | 0 <= j < |CLIENT_COMMANDS| :: !Names(text, CLIENT_COMMANDS[j])
    ensures ParseClient(text) == UnknownCommand
  {
    ClientTable();
    TableLaw(CLIENT_COMMANDS, text, 0, "");
  }

  lemma AdminDispatch(text: string, i: nat, args: string)
    requires i < |ADMIN_COMMANDS| && Says(text, ADMIN_COMMANDS[i], args)
    ensures ParseAdmin(text) == AdminHandlerAt(i, args)
  {
    AdminTable();
    TableLaw(ADMIN_COMMANDS, text, i, args);
  }

  lemma AdminUnknown(text: string)
    requires forall j | 0 <= j < |ADMIN_COMMANDS| :: !Names(text, ADMIN_COMMANDS[j])
    ensures ParseAdmin(text) == UnknownAdmin
  {
    AdminTable();
    TableLaw(ADMIN_COMMANDS, text, 0, "");
  }

  /** Which lines are which admin commands. */
  lemma AdminKinds(text: string)
    ensures ParseAdmin(text).List? <==> Names(text, "LIST")
    ensures ParseAdmin(text).Add? <==> Names(text, "ADD")
    ensures ParseAdmin(text).Del? <==> Names(text, "DEL")
    ensures ParseAdmin(text).Quit? <==> Names(text, "QUIT")
  {
    AdminTable();
    if i :| 0 <= i < |ADMIN_COMMANDS| && Names(text, ADMIN_COMMANDS[i]) {
      AdminNamed(text, i);
    } else {
      AdminUnknown(text);
    }
  }

  lemma AdminNamed(text: string, i: nat)
    requires i < |ADMIN_COMMANDS| && Names(text, ADMIN_COMMANDS[i])
    ensures var c := ParseAdmin(text);
            (c.List? <==> i == 0) && (c.Add? <==> i == 1) && (c.Del? <==> i == 2) && (c.Quit? <==> i == 3)
    ensures forall j | 0 <= j < |ADMIN_COMMANDS| && j != i :: !Names(text, ADMIN_COMMANDS[j])
  {
    var name, line := ADMIN_COMMANDS[i], FirstLine(text);
    var args := if line == name then "" else line[|name| + 1..];
    AdminTable();
    NamesSays(text, name, args);
    AdminDispatch(text, i, args);
    forall j | 0 <= j < |ADMIN_COMMANDS| && j != i
      ensures !Names(text, ADMIN_COMMANDS[j])
    {
      SplitLaw(text, ADMIN_COMMANDS[j], "");
      SplitLaw(text, name, "");
    }
  }

  // ---- Arguments ----

  /** White space, a word, and then nothing or a white-space character. */
  ghost predicate OneWord(args: string, u: string) {
    exists a, rest :: WordAt(args, a, u, rest)
  }

  predicate TwoWordsAt(args: string, a: string, u: string, b: string, v: string, rest: string) {
    && args == a + u + b + v + rest
    && Spaces(a) && Token(u) && Spaces(b) && b != "" && Token(v) && EndsWord(rest)
  }

  /** White space, a word, white space, a word, and then nothing or a white-space character. */
  ghost predicate TwoWords(args: string, u: string, v: string) {
    exists a, b, rest :: TwoWordsAt(args, a, u, b, v, rest)
  }

  predicate WordAndLineAt(args: string, a: string, u: string, b: string, v: string, rest: string) {
    && args == a + u + b + v + rest
    && Spaces(a) && Token(u) && Spaces(b) && b != ""
    && v != "" && !IsSpace(v[0]) && '\n' !in v && Ends(rest)
  }

  /** White space, a word, white space, and then a visible character with the rest of its line. */
  ghost predicate WordAndLine(args: string, u: string, v: string) {
    exists a, b, rest :: WordAndLineAt(args, a, u, b, v, rest)
  }

  function SixFields(u: NewUser): seq<Field> {
    [Text(u.username), Text(u.ip), Text(u.password), Int(u.clientServer), Int(u.p2p), Int(u.group)]
  }

  /** Three words and three numbers. */
  ghost predicate SixArgs(args: string, u: NewUser) {
    Reads(ADD_ARGS, args, SixFields(u))
  }

  lemma OneWordIff(args: string, u: string)
    ensures ScanText(args) == Some(u) <==> OneWord(args, u)
  {
    assert [Word] + [] == ONE_ARG;
    if a, rest :| WordAt(args, a, u, rest) {
      ScanAtWord([], args, a, u, rest);
    }
    if ScanText(args) == Some(u) {
      var a, w, rest := CutWord([], args);
    }
  }

  lemma JoinWords(args: string, a: string, u: string, b: string, v: string, rest: string)
    requires TwoWordsAt(args, a, u, b, v, rest)
    ensures ScanTexts(LOGIN_ARGS, args) == Some((u, v))
  {
    assert [Word] + ([Space] + ([Word] + [])) == LOGIN_ARGS;
    assert WordAt(args, a, u, b + v + rest) && SpaceAt(b + v + rest, b, v + rest) && WordAt(v + rest, "", v, rest);
    ScanAtWord([Space] + ([Word] + []), args, a, u, b + v + rest);
    ScanAtSpace([Word] + [], b + v + rest, b, v + rest);
    ScanAtWord([], v + rest, "", v, rest);
  }

  lemma CutWords(args: string, u: string, v: string)
    requires ScanTexts(LOGIN_ARGS, args) == Some((u, v))
    ensures TwoWords(args, u, v)
  {
    assert [Word] + ([Space] + ([Word] + [])) == LOGIN_ARGS;
    var a, u1, r := CutWord([Space] + ([Word] + []), args);
    var b, q := CutSpace([Word] + [], r);
    var c, v1, rest := CutWord([], q);
    Glue(args, a, u1, r, b, q, c, v1, rest);
    assert TwoWordsAt(args, a, u, b, v, rest);
  }

  lemma Glue(
    args: string, a: string, u: string, r: string, b: string, q: string, c: string, v: string, rest: string)
    requires WordAt(args, a, u, r) && SpaceAt(r, b, q) && q == c + v + rest && Spaces(c) && v != ""
    ensures c == "" && b != "" && args == a + u + b + v + rest && !IsSpace(v[0])
  {
    assert q[0] == (c + v)[0] && q[0] !in c;
    assert b == "" ==> r == q;
  }

  lemma TwoWordsIff(args: string, u: string, v: string)
    ensures ScanTexts(LOGIN_ARGS, args) == Some((u, v)) <==> TwoWords(args, u, v)
  {
    if a, b, rest :| TwoWordsAt(args, a, u, b, v, rest) {
      JoinWords(args, a, u, b, v, rest);
    }
    if ScanTexts(LOGIN_ARGS, args) == Some((u, v)) {
      CutWords(args, u, v);
    }
  }

  const WORD_LINE: seq<Directive> := [Word, Space, Line]

  lemma TailIsIgnored(args: string)
    ensures ScanTexts(MSG_ARGS, args) == ScanTexts(WORD_LINE, args)
  {
    assert WORD_LINE + [Literal("s")] == MSG_ARGS;
    TrailingLiteral(WORD_LINE, "s", args);
  }

  lemma JoinLine(args: string, a: string, u: string, b: string, v: string, rest: string)
    requires WordAndLineAt(args, a, u, b, v, rest)
    ensures ScanTexts(WORD_LINE, args) == Some((u, v))
  {
    assert [Word] + ([Space] + ([Line] + [])) == WORD_LINE;
    assert WordAt(args, a, u, b + v + rest) && SpaceAt(b + v + rest, b, v + rest) && LineAt(v + rest, v, rest);
    ScanAtWord([Space] + ([Line] + []), args, a, u, b + v + rest);
    ScanAtSpace([Line] + [], b + v + rest, b, v + rest);
    ScanAtLine([], v + rest, v, rest);
  }

  lemma CutLineOff(args: string, u: string, v: string)
    requires ScanTexts(WORD_LINE, args) == Some((u, v))
    ensures WordAndLine(args, u, v)
  {
    assert [Word] + ([Space] + ([Line] + [])) == WORD_LINE;
    var a, u1, r := CutWord([Space] + ([Line] + []), args);
    var b, q := CutSpace([Line] + [], r);
    var v1, rest := CutLine([], q);
    Glue(args, a, u1, r, b, q, "", v1, rest);
    assert WordAndLineAt(args, a, u, b, v, rest);
  }

  lemma WordAndLineIff(args: string, u: string, v: string)
    ensures ScanTexts(MSG_ARGS, args) == Some((u, v)) <==> WordAndLine(args, u, v)
  {
    TailIsIgnored(args);
    if a, b, rest :| WordAndLineAt(args, a, u, b, v, rest) {
      JoinLine(args, a, u, b, v, rest);
    }
    if ScanTexts(WORD_LINE, args) == Some((u, v)) {
      CutLineOff(args, u, v);
    }
  }

  lemma ScannedFields(args: string, u: NewUser)
    ensures ScanNewUser(args) == Some(u) <==> Scan(ADD_ARGS, args) == SixFields(u)
  {
  }

  lemma SixArgsIff(args: string, u: NewUser)
    ensures ScanNewUser(args) == Some(u) <==> SixArgs(args, u)
  {
    ScannedFields(args, u);
    ScanIsGrammar(ADD_ARGS, args, SixFields(u));
    SixConversions();
  }

  lemma SixConversions()
    ensures Conversions(ADD_ARGS) == 6
  {
    var e: seq<Directive> := [Number];
    var d := [Number, Space] + e;
    var c := [Number, Space] + d;
    var b := [Word, Space] + c;
    var a := [Word, Space] + b;
    assert [Word, Space] + a == ADD_ARGS;
    assert e[1..] == [] && Conversions(e) == 1;
    ConversionsAndSpace(Number, e);
    ConversionsAndSpace(Number, d);
    ConversionsAndSpace(Word, c);
    ConversionsAndSpace(Word, b);
    ConversionsAndSpace(Word, a);
  }

  // ---- Requests ----

  /** A request that can be sent is its command with its arguments. */
  lemma RequestSays(r: Request)
    requires Sendable(r)
    ensures Says(RequestText(r), CommandName(r), SentText(r))
    ensures match r
            case LoginRequest(u, p) => TwoWords(SentText(r), u, p)
            case MsgRequest(u, b) => WordAndLine(SentText(r), u, b)
            case P2PRequest(u) => OneWord(SentText(r), u)
            case CreateRequest(g) => OneWord(SentText(r), g)
            case GetRequest(g) => OneWord(SentText(r), g)
  {
    RequestIsOneLine(r);
    RequestLayout(r);
    match r
    case LoginRequest(u, p) => assert TwoWordsAt(SentText(r), "", u, " ", p, "");
    case MsgRequest(u, b) => assert WordAndLineAt(SentText(r), "", u, " ", b, "");
    case P2PRequest(u) => assert WordAt(SentText(r), "", u, "");
    case CreateRequest(g) => assert WordAt(SentText(r), "", g, "");
    case GetRequest(g) => assert WordAt(SentText(r), "", g, "");
  }

  /** The requests and the answers that are read, letter by letter. */
  lemma RequestsSpelledOut(u: string, v: string)
    ensures RequestText(LoginRequest(u, v)) == "LOGIN " + u + " " + v
    ensures RequestText(MsgRequest(u, v)) == "MSG " + u + " " + v
    ensures RequestText(P2PRequest(u)) == "P2P " + u
    ensures RequestText(CreateRequest(u)) == "CREATEMULTICAST " + u
    ensures RequestText(GetRequest(u)) == "GETMULTICAST " + u
  {
    RequestLayout(LoginRequest(u, v));
    RequestLayout(MsgRequest(u, v));
    RequestLayout(P2PRequest(u));
    RequestLayout(CreateRequest(u));
    RequestLayout(GetRequest(u));
  }
}
