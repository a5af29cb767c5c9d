/** What sscanf's directives mean, as a grammar: a text is read as some fields if and only if it
    can be cut into the pieces the directives ask for. */
module ScanLaw {
  import opened Scanf
  import opened CString

  /** isspace in the C locale: the blank and the characters 9 to 13. */
  lemma SpacesAre(c: char)
    ensures IsSpace(c) <==> c as int == 32 || 9 <= c as int <= 13
  {
  }

  predicate Spaces(s: string) {
    forall c | c in s :: IsSpace(c)
  }

  /** What may follow a word. */
  predicate EndsWord(rest: string) {
    rest == "" || IsSpace(rest[0])
  }

  /** White space up to the next visible character, or to the end. */
  predicate SpaceAt(s: string, a: string, rest: string) {
    s == a + rest && Spaces(a) && (rest == "" || !IsSpace(rest[0]))
  }

  /** White space and then a word. */
  predicate WordAt(s: string, a: string, w: string, rest: string) {
    s == a + w + rest && Spaces(a) && Token(w) && EndsWord(rest)
  }

  /** The rest of a line, not empty. */
  predicate LineAt(s: string, w: string, rest: string) {
    s == w + rest && w != "" && '\n' !in w && Ends(rest)
  }

  /** Decimal digits with an optional sign, and the number they denote. */
  predicate Numeral(t: string, n: int) {
    || (AllDigits(t) && n == ValueOf(t))
    || (t != "" && t[0] == '+' && AllDigits(t[1..]) && n == ValueOf(t[1..]))
    || (t != "" && t[0] == '-' && AllDigits(t[1..]) && n == -ValueOf(t[1..]))
  }

  /** White space and then a number. */
  predicate NumberAt(s: string, a: string, t: string, n: int, rest: string) {
    && s == a + t + rest && Spaces(a) && Numeral(t, n)
    && (rest == "" || !('0' <= rest[0] <= '9'))
  }

  /** How many fields a format asks for. */
  function Conversions(format: seq<Directive>): nat {
    if format == [] then 0
    else Conversions(format[1..]) + if format[0].Space? || format[0].Literal? then 0 else 1
  }

  /** The text can be cut into the pieces of the format, and the fields are those pieces. What
      comes after the last field is not looked at. */
  ghost predicate Reads(format: seq<Directive>, s: string, fields: seq<Field>) {
    if Conversions(format) == 0 then fields == []
    else
      match format[0]
      case Space => exists a, rest :: SpaceAt(s, a, rest) && Reads(format[1..], rest, fields)
      case Literal(t) => t <= s && Reads(format[1..], s[|t|..], fields)
      case Word =>
        && fields != []
        && exists a, w, rest :: WordAt(s, a, w, rest) && fields[0] == Text(w) && Reads(format[1..], rest, fields[1..])
      case Line =>
        && fields != []
        && exists w, rest :: LineAt(s, w, rest) && fields[0] == Text(w) && Reads(format[1..], rest, fields[1..])
      case Number =>
        && fields != []
        && exists a, t, n, rest ::
             NumberAt(s, a, t, n, rest) && fields[0] == Int(n) && Reads(format[1..], rest, fields[1..])
  }

  // ---- One piece ----

  /** The pieces that scanning finds are pieces, and the only ones. */
  lemma SpaceIsSkipped(s: string)
    ensures SpaceAt(s, s[..Span(Blank, s)], SkipSpace(s))
    ensures forall a, rest | SpaceAt(s, a, rest) :: rest == SkipSpace(s)
  {
    SpanFacts(Blank, s);
    forall a, rest | SpaceAt(s, a, rest)
      ensures rest == SkipSpace(s)
    {
      SpanStops(Blank, a, rest);
    }
  }

  lemma BlanksAreSpaces(s: string)
    ensures Spaces(s[..Span(Blank, s)]) && s == s[..Span(Blank, s)] + SkipSpace(s)
  {
    SpanFacts(Blank, s);
  }

  lemma VisiblesAreTaken(t: string)
    ensures var n := Span(Visible, t);
            && t == t[..n] + t[n..] && EndsWord(t[n..])
            && (n > 0 ==> Token(t[..n]))
  {
    SpanFacts(Visible, t);
  }

  lemma WordIsTaken(s: string)
    ensures var t := SkipSpace(s);
            var n := Span(Visible, t);
            n > 0 ==> WordAt(s, s[..Span(Blank, s)], t[..n], t[n..])
  {
    BlanksAreSpaces(s);
    VisiblesAreTaken(SkipSpace(s));
  }

  lemma OnlyThatWord(s: string, a: string, w: string, rest: string)
    requires WordAt(s, a, w, rest)
    ensures var t := SkipSpace(s);
            Span(Visible, t) == |w| && t[..|w|] == w && t[|w|..] == rest
  {
    assert s == a + (w + rest);
    SpanStops(Blank, a, w + rest);
    SpanStops(Visible, w, rest);
  }

  lemma LineIsTaken(s: string)
    ensures var n := Span(InLine, s); n > 0 ==> LineAt(s, s[..n], s[n..])
  {
    SpanFacts(InLine, s);
  }

  lemma OnlyThatLine(s: string, w: string, rest: string)
    requires LineAt(s, w, rest)
    ensures Span(InLine, s) == |w| && s[..|w|] == w && s[|w|..] == rest
  {
    SpanStops(InLine, w, rest);
  }

  lemma DigitsAreTaken(s: string)
    ensures var (n, v) := ReadDigits(s);
            && (n > 0 ==> AllDigits(s[..n]) && v == ValueOf(s[..n]))
            && (n < |s| ==> !('0' <= s[n] <= '9'))
  {
    SpanFacts(Digit, s);
  }

  lemma OnlyThoseDigits(digits: string, rest: string)
    requires AllDigits(digits) && (rest == "" || !('0' <= rest[0] <= '9'))
    ensures ReadDigits(digits + rest) == (|digits|, ValueOf(digits))
  {
    SpanStops(Digit, digits, rest);
  }

  lemma NumeralIsTaken(t: string)
    ensures var (n, v) := ReadNumber(t);
            && (n > 0 ==> Numeral(t[..n], v))
            && (0 < n < |t| ==> !('0' <= t[n] <= '9'))
  {
    if t != "" && (t[0] == '+' || t[0] == '-') {
      DigitsAreTaken(t[1..]);
      var n := ReadNumber(t).0;
      if n > 0 {
        assert t[..n][0] == t[0] && t[..n][1..] == t[1..][..n - 1];
      }
    } else {
      DigitsAreTaken(t);
    }
  }

  lemma NumberCut(s: string, a: string, t: string, n: nat, v: int)
    requires s == a + t && Spaces(a) && n <= |t| && Numeral(t[..n], v)
    requires n < |t| ==> !('0' <= t[n] <= '9')
    ensures NumberAt(s, a, t[..n], v, t[n..])
  {
    assert t == t[..n] + t[n..];
  }

  lemma NumberIsTaken(s: string)
    ensures var t := SkipSpace(s);
            var (n, v) := ReadNumber(t);
            n > 0 ==> NumberAt(s, s[..Span(Blank, s)], t[..n], v, t[n..])
  {
    var t := SkipSpace(s);
    var (n, v) := ReadNumber(t);
    BlanksAreSpaces(s);
    NumeralIsTaken(t);
    if n > 0 {
      NumberCut(s, s[..Span(Blank, s)], t, n, v);
    }
  }

  lemma OnlyThatNumeral(t: string, n: int, rest: string)
    requires Numeral(t, n) && (rest == "" || !('0' <= rest[0] <= '9'))
    ensures t != "" && !IsSpace(t[0]) && ReadNumber(t + rest) == (|t|, n)
  {
    if AllDigits(t) {
      assert t[0] in t && (t + rest)[0] == t[0];
      OnlyThoseDigits(t, rest);
    } else {
      assert (t + rest)[0] == t[0] && (t + rest)[1..] == t[1..] + rest;
      OnlyThoseDigits(t[1..], rest);
    }
  }

  lemma OnlyThatNumber(s: string, a: string, t: string, n: int, rest: string)
    requires NumberAt(s, a, t, n, rest)
    ensures var u := SkipSpace(s);
            ReadNumber(u) == (|t|, n) && |t| > 0 && u[|t|..] == rest
  {
    OnlyThatNumeral(t, n, rest);
    assert s == a + (t + rest);
    SpanStops(Blank, a, t + rest);
  }

  // ---- Scanning piece by piece ----

  lemma ScanAtWord(tail: seq<Directive>, s: string, a: string, w: string, rest: string)
    requires WordAt(s, a, w, rest)
    ensures Scan([Word] + tail, s) == [Text(w)] + Scan(tail, rest)
  {
    OnlyThatWord(s, a, w, rest);
    assert ([Word] + tail)[1..] == tail;
  }

  lemma ScanAtSpace(tail: seq<Directive>, s: string, a: string, rest: string)
    requires SpaceAt(s, a, rest)
    ensures Scan([Space] + tail, s) == Scan(tail, rest)
  {
    SpaceIsSkipped(s);
    assert ([Space] + tail)[1..] == tail;
  }

  lemma ScanAtLine(tail: seq<Directive>, s: string, w: string, rest: string)
    requires LineAt(s, w, rest)
    ensures Scan([Line] + tail, s) == [Text(w)] + Scan(tail, rest)
  {
    OnlyThatLine(s, w, rest);
    assert ([Line] + tail)[1..] == tail;
  }

  lemma CutWord(tail: seq<Directive>, s: string) returns (a: string, w: string, rest: string)
    requires Scan([Word] + tail, s) != []
    ensures WordAt(s, a, w, rest) && Scan([Word] + tail, s) == [Text(w)] + Scan(tail, rest)
  {
    assert ([Word] + tail)[1..] == tail;
    WordIsTaken(s);
    var t := SkipSpace(s);
    var n := Span(Visible, t);
    a, w, rest := s[..Span(Blank, s)], t[..n], t[n..];
  }

  lemma CutSpace(tail: seq<Directive>, s: string) returns (a: string, rest: string)
    ensures SpaceAt(s, a, rest) && Scan([Space] + tail, s) == Scan(tail, rest)
  {
    SpaceIsSkipped(s);
    a, rest := s[..Span(Blank, s)], SkipSpace(s);
    ScanAtSpace(tail, s, a, rest);
  }

  lemma CutLine(tail: seq<Directive>, s: string) returns (w: string, rest: string)
    requires Scan([Line] + tail, s) != []
    ensures LineAt(s, w, rest) && Scan([Line] + tail, s) == [Text(w)] + Scan(tail, rest)
  {
    assert ([Line] + tail)[1..] == tail;
    LineIsTaken(s);
    w, rest := s[..Span(InLine, s)], s[Span(InLine, s)..];
  }

  lemma ConversionsAndSpace(d: Directive, rest: seq<Directive>)
    requires !d.Space? && !d.Literal?
    ensures Conversions([d, Space] + rest) == 1 + Conversions(rest)
  {
    assert ([d, Space] + rest)[1..] == [Space] + rest && ([Space] + rest)[1..] == rest;
  }

  // ---- Whole formats ----

  lemma {:induction false} FieldsAtMost(format: seq<Directive>, s: string)
    ensures |Scan(format, s)| <= Conversions(format)
  {
    if format != [] {
      forall rest: string
        ensures |Scan(format[1..], rest)| <= Conversions(format[1..])
      {
        FieldsAtMost(format[1..], rest);
      }
    }
  }

  lemma WordIsRead(format: seq<Directive>, s: string, a: string, w: string, rest: string, fields: seq<Field>)
    requires format != [] && format[0].Word? && WordAt(s, a, w, rest) && Reads(format[1..], rest, fields)
    ensures Reads(format, s, [Text(w)] + fields)
  {
    assert ([Text(w)] + fields)[1..] == fields;
  }

  lemma NumberIsRead(
    format: seq<Directive>, s: string, a: string, t: string, n: int, rest: string, fields: seq<Field>)
    requires format != [] && format[0].Number? && NumberAt(s, a, t, n, rest) && Reads(format[1..], rest, fields)
    ensures Reads(format, s, [Int(n)] + fields)
  {
    assert ([Int(n)] + fields)[1..] == fields;
  }

  lemma LineIsRead(format: seq<Directive>, s: string, w: string, rest: string, fields: seq<Field>)
    requires format != [] && format[0].Line? && LineAt(s, w, rest) && Reads(format[1..], rest, fields)
    ensures Reads(format, s, [Text(w)] + fields)
  {
    assert ([Text(w)] + fields)[1..] == fields;
  }

  lemma {:induction false} ScannedIsRead(format: seq<Directive>, s: string)
    requires |Scan(format, s)| == Conversions(format)
    ensures Reads(format, s, Scan(format, s))
  {
    if Conversions(format) > 0 {
      var tail := format[1..];
      var u := SkipSpace(s);
      match format[0]
      case Space =>
        SpaceIsSkipped(s);
        ScannedIsRead(tail, u);
      case Literal(t) => ScannedIsRead(tail, s[|t|..]);
      case Word =>
        WordIsTaken(s);
        var n := Span(Visible, u);
        ScannedIsRead(tail, u[n..]);
        WordIsRead(format, s, s[..Span(Blank, s)], u[..n], u[n..], Scan(tail, u[n..]));
      case Line =>
        LineIsTaken(s);
        var n := Span(InLine, s);
        ScannedIsRead(tail, s[n..]);
        LineIsRead(format, s, s[..n], s[n..], Scan(tail, s[n..]));
      case Number =>
        NumberIsTaken(s);
        var (n, v) := ReadNumber(u);
        ScannedIsRead(tail, u[n..]);
        NumberIsRead(format, s, s[..Span(Blank, s)], u[..n], v, u[n..], Scan(tail, u[n..]));
    }
  }

  lemma {:induction false} ReadIsScanned(format: seq<Directive>, s: string, fields: seq<Field>)
    requires Reads(format, s, fields)
    ensures Scan(format, s) == fields && |fields| == Conversions(format)
  {
    FieldsAtMost(format, s);
    if Conversions(format) > 0 {
      var tail := format[1..];
      match format[0]
      case Space =>
        var a, rest :| SpaceAt(s, a, rest) && Reads(tail, rest, fields);
        SpaceIsSkipped(s);
        ReadIsScanned(tail, rest, fields);
      case Literal(t) => ReadIsScanned(tail, s[|t|..], fields);
      case Word =>
        var a, w, rest :| WordAt(s, a, w, rest) && fields[0] == Text(w) && Reads(tail, rest, fields[1..]);
        OnlyThatWord(s, a, w, rest);
        ReadIsScanned(tail, rest, fields[1..]);
      case Line =>
        var w, rest :| LineAt(s, w, rest) && fields[0] == Text(w) && Reads(tail, rest, fields[1..]);
        OnlyThatLine(s, w, rest);
        ReadIsScanned(tail, rest, fields[1..]);
      case Number =>
        var a, t, n, rest :|
          NumberAt(s, a, t, n, rest) && fields[0] == Int(n) && Reads(tail, rest, fields[1..]);
        OnlyThatNumber(s, a, t, n, rest);
        ReadIsScanned(tail, rest, fields[1..]);
    }
  }

  /** For every format and text: sscanf assigns all its fields, and assigns these, if and only if
      the text can be cut into pieces of the format with these fields. */
  lemma ScanIsGrammar(format: seq<Directive>, s: string, fields: seq<Field>)
    ensures Scan(format, s) == fields && |fields| == Conversions(format) <==> Reads(format, s, fields)
  {
    if Reads(format, s, fields) {
      ReadIsScanned(format, s, fields);
    } else if Scan(format, s) == fields && |fields| == Conversions(format) {
      ScannedIsRead(format, s);
    }
  }

  // ---- Texts put together piece by piece ----

  lemma PutSpace(format: seq<Directive>, text: string, fields: seq<Field>)
    requires Reads(format, text, fields) && Conversions(format) > 0 && text != "" && !IsSpace(text[0])
    ensures Reads([Space] + format, " " + text, fields) && Conversions([Space] + format) == Conversions(format)
  {
    assert ([Space] + format)[1..] == format;
    assert SpaceAt(" " + text, " ", text);
  }

  lemma PutWord(format: seq<Directive>, w: string, text: string, fields: seq<Field>)
    requires Reads(format, text, fields) && Token(w) && EndsWord(text)
    ensures Reads([Word] + format, w + text, [Text(w)] + fields) && Conversions([Word] + format) > 0
    ensures !IsSpace((w + text)[0])
  {
    assert ([Word] + format)[1..] == format;
    assert WordAt(w + text, "", w, text);
    WordIsRead([Word] + format, w + text, "", w, text, fields);
  }

  lemma PutNumber(format: seq<Directive>, n: int, text: string, fields: seq<Field>)
    requires Reads(format, text, fields) && EndsWord(text)
    ensures Reads([Number] + format, Decimal(n) + text, [Int(n)] + fields) && Conversions([Number] + format) > 0
    ensures Decimal(n) != "" && !IsSpace(Decimal(n)[0])
  {
    assert ([Number] + format)[1..] == format;
    DecimalIsNumeral(n);
    assert NumberAt(Decimal(n) + text, "", Decimal(n), n, text);
    NumberIsRead([Number] + format, Decimal(n) + text, "", Decimal(n), n, text, fields);
  }

  lemma DigitsAreNumeral(n: nat)
    ensures Numeral(Digits(n), n) && !IsSpace(Digits(n)[0])
  {
    DigitsRead(n);
    assert Digits(n)[0] in Digits(n);
  }

  lemma MinusIsNumeral(digits: string, n: int)
    requires AllDigits(digits) && ValueOf(digits) == n
    ensures Numeral("-" + digits, -n) && !IsSpace(("-" + digits)[0])
  {
    assert ("-" + digits)[1..] == digits;
  }

  lemma DecimalIsNumeral(n: int)
    ensures Numeral(Decimal(n), n) && !IsSpace(Decimal(n)[0])
  {
    if n < 0 {
      DigitsRead(-n);
      MinusIsNumeral(Digits(-n), -n);
    } else {
      DigitsAreNumeral(n);
    }
  }

  /** Decimal notation as it is written. */
  lemma DecimalSamples()
    ensures Decimal(0) == "0" && Decimal(65535) == "65535" && Decimal(-120) == "-120"
  {
    assert Digits(6) == "6" && Digits(65) == "65" && Digits(655) == "655" && Digits(6553) == "6553";
    assert Digits(1) == "1" && Digits(12) == "12";
  }
}
