/** What every admin line is answered and does, said of its text and of the state it meets. */
module AdminAnswers {
  import opened Options
  import opened TreeModel
  import opened Comparators
  import opened Scanf
  import opened CString
  import opened ScanLaw
  import opened Protocol
  import opened ServerModel
  import opened Persistence
  import opened Texts
  import PlainTree

  /** ADD: three words and three numbers, and a new name; and then memory and file gain the
      record, whose port is whatever its block held. */
  ghost predicate AddRule<P>(
    s: State<P>, args: string, block: P, junk: int, t: State<P>, out: seq<Output>)
  {
    && ((forall u :: !SixArgs(args, u)) ==> t == s && out == [ToSender(InvalidUsage)])
    && forall u | SixArgs(args, u) :: UserAdded(s, u, block, junk, t, out)
  }

  ghost predicate UserAdded<P>(
    s: State<P>, u: NewUser, block: P, junk: int, t: State<P>, out: seq<Output>)
  {
    if u.username in Contents(s.users) then t == s && out == [ToSender(UserExists)]
    else
      && out == [ToSender(UserCreated(u.username))]
      && t == s.(users := t.users, store := t.store, file := t.file)
      && Contents(t.users) == Contents(s.users)[u.username := block]
      && |t.file| == |s.file| + 1 && t.file[..|s.file|] == s.file
      && t.store == s.store[block := t.file[|s.file|]]
      && var r := t.file[|s.file|];
      && r.username == u.username && r.password == u.password && r.ip == u.ip && r.port == junk
      && r.clientServer == u.clientServer && r.p2p == u.p2p && r.group == u.group
  }

  /** DEL: a word and a known name; and then the name goes if its node has at most one child, and
      the file becomes the list of the users that are left. */
  ghost predicate DelRule<P>(s: State<P>, args: string, t: State<P>, out: seq<Output>) {
    && ((forall u :: !OneWord(args, u)) ==> t == s && out == [ToSender(InvalidUsage)])
    && forall u | OneWord(args, u) :: UserRemoved(s, u, t, out)
  }

  ghost predicate UserRemoved<P>(s: State<P>, name: string, t: State<P>, out: seq<Output>) {
    if name !in Contents(s.users) then t == s && out == [ToSender(UserNotFound)]
    else
      && out == [ToSender(UserDeleted(name))]
      && t == s.(users := t.users, file := t.file)
      && Contents(t.users) ==
         (if PlainTree.HasSpareChild(Find(DataCmp, s.users, name)) then Contents(s.users) - {name}
          else Contents(s.users))
      && FirstByName(t.file) == InMemory(t) && |t.file| == |Contents(t.users)| && NamesIncrease(t.file)
  }

  // ---- The handlers keep the rules ----

  lemma AddUserAdds<P>(s: State<P>, u: NewUser, block: P, junk: int)
    requires Inv(s)
    ensures var (t, out) := AddUser(s, NewRecord(u, junk), block); UserAdded(s, u, block, junk, t, out)
  {
    UsersAfterAdd(s.users, Entry(u.username, block));
    assert (s.file + [NewRecord(u, junk)])[..|s.file|] == s.file;
  }

  lemma AddKeepsRule<P>(s: State<P>, args: string, scanned: Option<NewUser>, block: P, junk: int)
    requires Inv(s) && forall u :: scanned == Some(u) <==> SixArgs(args, u)
    ensures var (t, out) := AdminStep(s, Add(scanned), block, junk); AddRule(s, args, block, junk, t, out)
  {
    if scanned.Some? {
      assert scanned == Some(scanned.value);
      AddUserAdds(s, scanned.value, block, junk);
    }
  }

  lemma DelKeepsRule<P>(s: State<P>, args: string, scanned: Option<string>, block: P, junk: int)
    requires Inv(s) && forall u :: scanned == Some(u) <==> OneWord(args, u)
    ensures var (t, out) := AdminStep(s, Del(scanned), block, junk); DelRule(s, args, t, out)
  {
    if scanned.Some? {
      assert scanned == Some(scanned.value);
      UsersAfterRemove(s.users, scanned.value);
      if scanned.value in Contents(s.users) {
        DelCompacts(s, scanned.value);
      }
    }
  }

  // ---- Every line ----

  lemma AddIsAnswered<P>(s: State<P>, line: string, args: string, block: P, junk: int)
    requires Inv(s) && Says(line, "ADD", args)
    ensures var (t, out) := Step(s, Admin(line, block, junk)); AddRule(s, args, block, junk, t, out)
  {
    AdminTable();
    AdminDispatch(line, 1, args);
    forall u
      ensures ScanNewUser(args) == Some(u) <==> SixArgs(args, u)
    {
      SixArgsIff(args, u);
    }
    AddKeepsRule(s, args, ScanNewUser(args), block, junk);
  }

  lemma DelIsAnswered<P>(s: State<P>, line: string, args: string, block: P, junk: int)
    requires Inv(s) && Says(line, "DEL", args)
    ensures var (t, out) := Step(s, Admin(line, block, junk)); DelRule(s, args, t, out)
  {
    AdminTable();
    AdminDispatch(line, 2, args);
    forall u
      ensures ScanText(args) == Some(u) <==> OneWord(args, u)
    {
      OneWordIff(args, u);
    }
    DelKeepsRule(s, args, ScanText(args), block, junk);
  }

  /** LIST, whatever follows it. */
  lemma ListIsAnswered<P>(s: State<P>, line: string, args: string, block: P, junk: int)
    requires Inv(s) && Says(line, "LIST", args)
    ensures var (t, out) := Step(s, Admin(line, block, junk)); t == s && NamesUsers(s, out)
  {
    AdminTable();
    AdminDispatch(line, 0, args);
    ListNamesEachUserOnce(s, block, junk);
  }

  /** QUIT does nothing but end the admin's session. */
  lemma QuitIsAnswered<P>(s: State<P>, line: string, args: string, block: P, junk: int)
    requires Says(line, "QUIT", args)
    ensures Step(s, Admin(line, block, junk)) == (s, []) && ParseAdmin(line) == Quit
  {
    AdminTable();
    AdminDispatch(line, 3, args);
  }

  /** A line that names none of the four commands. */
  lemma OthersAreRefused<P>(s: State<P>, line: string, block: P, junk: int)
    requires !Names(line, "LIST") && !Names(line, "ADD") && !Names(line, "DEL") && !Names(line, "QUIT")
    ensures Step(s, Admin(line, block, junk)) == (s, [ToSender(CommandNotFound)])
    ensures ParseAdmin(line) == UnknownAdmin
  {
    AdminTable();
    AdminUnknown(line);
  }

  // ---- Lines as an admin writes them ----

  /** Six arguments one space apart. */
  function SixText(u: NewUser): string {
    u.username + " " + u.ip + " " + u.password
    + " " + Decimal(u.clientServer) + " " + Decimal(u.p2p) + " " + Decimal(u.group)
  }

  function NumbersText(c: int, p: int, g: int): string {
    Decimal(c) + (" " + (Decimal(p) + (" " + (Decimal(g) + ""))))
  }

  const NUMBERS: seq<Directive> := [Number] + ([Space] + ([Number] + ([Space] + ([Number] + []))))

  lemma NumbersAreRead(c: int, p: int, g: int)
    ensures Reads(NUMBERS, NumbersText(c, p, g), [Int(c)] + ([Int(p)] + ([Int(g)] + [])))
    ensures Conversions(NUMBERS) > 0 && NumbersText(c, p, g) != "" && !IsSpace(NumbersText(c, p, g)[0])
  {
    PutNumber([], g, "", []);
    PutSpace([Number] + [], Decimal(g) + "", [Int(g)] + []);
    PutNumber([Space] + ([Number] + []), p, " " + (Decimal(g) + ""), [Int(g)] + []);
    PutSpace(
      [Number] + ([Space] + ([Number] + [])), Decimal(p) + (" " + (Decimal(g) + "")), [Int(p)] + ([Int(g)] + []));
    PutNumber(
      [Space] + ([Number] + ([Space] + ([Number] + []))), c, " " + (Decimal(p) + (" " + (Decimal(g) + ""))),
      [Int(p)] + ([Int(g)] + []));
  }

  lemma WordsAreRead(format: seq<Directive>, u: string, i: string, p: string, text: string, fields: seq<Field>)
    requires Token(u) && Token(i) && Token(p)
    requires Reads(format, text, fields) && Conversions(format) > 0 && text != "" && !IsSpace(text[0])
    ensures Reads([Word] + ([Space] + ([Word] + ([Space] + ([Word] + ([Space] + format))))),
                  u + (" " + (i + (" " + (p + (" " + text))))),
                  [Text(u)] + ([Text(i)] + ([Text(p)] + fields)))
  {
    PutSpace(format, text, fields);
    PutWord([Space] + format, p, " " + text, fields);
    var f, t := [Word] + ([Space] + format), p + (" " + text);
    PutSpace(f, t, [Text(p)] + fields);
    PutWord([Space] + f, i, " " + t, [Text(p)] + fields);
    var g, v := [Word] + ([Space] + f), i + (" " + t);
    PutSpace(g, v, [Text(i)] + ([Text(p)] + fields));
    PutWord([Space] + g, u, " " + v, [Text(i)] + ([Text(p)] + fields));
  }

  lemma SixTextIsRead(u: NewUser)
    requires Token(u.username) && Token(u.ip) && Token(u.password)
    ensures SixArgs(SixText(u), u)
  {
    var n := NumbersText(u.clientServer, u.p2p, u.group);
    var f := [Int(u.clientServer)] + ([Int(u.p2p)] + ([Int(u.group)] + []));
    NumbersAreRead(u.clientServer, u.p2p, u.group);
    WordsAreRead(NUMBERS, u.username, u.ip, u.password, n, f);
    SixTextLayout(u);
    SixFieldsLayout(u);
  }

  lemma SixFieldsLayout(u: NewUser)
    ensures [Word] + ([Space] + ([Word] + ([Space] + ([Word] + ([Space] + NUMBERS))))) == ADD_ARGS
    ensures [Text(u.username)] + ([Text(u.ip)] + ([Text(u.password)]
              + ([Int(u.clientServer)] + ([Int(u.p2p)] + ([Int(u.group)] + []))))) ==
            SixFields(u)
  {
  }

  lemma SixTextLayout(u: NewUser)
    ensures SixText(u) ==
            u.username + (" " + (u.ip + (" " + (u.password + (" " + NumbersText(u.clientServer, u.p2p, u.group))))))
  {
  }

  lemma DecimalIsOneLine(n: int)
    ensures OneLine(Decimal(n))
  {
    if n < 0 {
      DigitsRead(-n);
    } else {
      DigitsRead(n);
    }
  }

  lemma SixTextIsOneLine(u: NewUser)
    requires Token(u.username) && Token(u.ip) && Token(u.password)
    ensures OneLine("ADD" + " " + SixText(u))
  {
    var c, p, g := Decimal(u.clientServer), Decimal(u.p2p), Decimal(u.group);
    DecimalIsOneLine(u.clientServer);
    DecimalIsOneLine(u.p2p);
    DecimalIsOneLine(u.group);
    SixAreOneLine(u.username, u.ip, u.password, c, p, g);
    assert OneLine("ADD");
    SpacedIsOneLine("ADD", SixText(u));
  }

  lemma SixAreOneLine(u: string, i: string, w: string, c: string, p: string, g: string)
    requires OneLine(u) && OneLine(i) && OneLine(w) && OneLine(c) && OneLine(p) && OneLine(g)
    ensures OneLine(u + " " + i + " " + w + " " + c + " " + p + " " + g)
  {
    SpacedIsOneLine(u, i);
    SpacedIsOneLine(u + " " + i, w);
    SpacedIsOneLine(u + " " + i + " " + w, c);
    SpacedIsOneLine(u + " " + i + " " + w + " " + c, p);
    SpacedIsOneLine(u + " " + i + " " + w + " " + c + " " + p, g);
  }

  lemma LineSays(name: string, args: string)
    requires OneLine(name + " " + args)
    ensures Says(name + " " + args, name, args)
  {
    FirstLineIsAll(name + " " + args);
  }

  lemma LineLayout(u: string, i: string, w: string, c: string, p: string, g: string)
    ensures "ADD " + u + " " + i + " " + w + " " + c + " " + p + " " + g ==
            "ADD" + " " + (u + " " + i + " " + w + " " + c + " " + p + " " + g)
  {
  }

  lemma AddedExactly<P>(s: State<P>, u: NewUser, block: P, junk: int, t: State<P>, out: seq<Output>)
    requires UserAdded(s, u, block, junk, t, out) && u.username !in Contents(s.users)
    ensures t.store.Keys == s.store.Keys + {block} && t.file == s.file + [t.store[block]]
    ensures forall b | b in s.store && b != block :: t.store[b] == s.store[b]
  {
    assert t.file == t.file[..|s.file|] + [t.file[|s.file|]];
  }

  /** An ADD line of three words and any three numbers adds exactly that user, unless the name is
      taken. */
  lemma AddLineAdds<P>(
    s: State<P>, user: string, ip: string, password: string, c: int, p: int, g: int, block: P, junk: int)
    requires Inv(s) && Token(user) && Token(ip) && Token(password)
    ensures var line := "ADD " + user + " " + ip + " " + password
                        + " " + Decimal(c) + " " + Decimal(p) + " " + Decimal(g);
            var (t, out) := Step(s, Admin(line, block, junk));
            if user in Contents(s.users) then t == s && out == [ToSender(UserExists)]
            else
              && out == [ToSender(UserCreated(user))]
              && t == s.(users := t.users, store := t.store, file := t.file)
              && Contents(t.users) == Contents(s.users)[user := block]
              && t.store.Keys == s.store.Keys + {block}
              && (forall b | b in s.store && b != block :: t.store[b] == s.store[b])
              && var r := t.store[block];
              && t.file == s.file + [r]
              && r.username == user && r.password == password && r.ip == ip && r.port == junk
              && r.clientServer == c && r.p2p == p && r.group == g
  {
    var u := NewUser(user, ip, password, c, p, g);
    SixTextIsRead(u);
    SixTextIsOneLine(u);
    LineLayout(user, ip, password, Decimal(c), Decimal(p), Decimal(g));
    LineSays("ADD", SixText(u));
    SaidLineAdds(s, "ADD" + " " + SixText(u), SixText(u), u, block, junk);
  }

  lemma SaidLineAdds<P>(s: State<P>, line: string, args: string, u: NewUser, block: P, junk: int)
    requires Inv(s) && Says(line, "ADD", args) && SixArgs(args, u)
    ensures var (t, out) := Step(s, Admin(line, block, junk));
            && UserAdded(s, u, block, junk, t, out)
            && (u.username !in Contents(s.users) ==>
                  && t.store.Keys == s.store.Keys + {block} && t.file == s.file + [t.store[block]]
                  && forall b | b in s.store && b != block :: t.store[b] == s.store[b])
  {
    AddIsAnswered(s, line, args, block, junk);
    var (t, out) := Step(s, Admin(line, block, junk));
    if u.username !in Contents(s.users) {
      AddedExactly(s, u, block, junk, t, out);
    }
  }

  /** A DEL line of one word is for that user. */
  lemma DelLineDeletes<P>(s: State<P>, name: string, block: P, junk: int)
    requires Inv(s) && Token(name)
    ensures var (t, out) := Step(s, Admin("DEL " + name, block, junk)); UserRemoved(s, name, t, out)
  {
    assert "DEL " + name == "DEL" + " " + name;
    assert OneLine("DEL") && OneLine(name);
    SpacedIsOneLine("DEL", name);
    LineSays("DEL", name);
    assert WordAt(name, "", name, "");
    DelIsAnswered(s, "DEL " + name, name, block, junk);
  }

  lemma ListAndQuitLines<P>(s: State<P>, block: P, junk: int)
    requires Inv(s)
    ensures var (t, out) := Step(s, Admin("LIST", block, junk)); t == s && NamesUsers(s, out)
    ensures Step(s, Admin("QUIT", block, junk)) == (s, [])
  {
    FirstLineIsAll("LIST");
    FirstLineIsAll("QUIT");
    ListIsAnswered(s, "LIST", "", block, junk);
    QuitIsAnswered(s, "QUIT", "", block, junk);
  }
}
