/** printf and scanf for the directives the two programs use. Scanning follows section
    7.21.6.2 of ISO/IEC 9899:2011. */
module Scanf {

  /** White space, %s, %[^\n], %d, and ordinary characters. */
  datatype Directive = Space | Word | Line | Number | Literal(text: string)

  datatype Field = Text(text: string) | Int(value: int)

  datatype Class = Blank | Visible | InLine | Digit | SpaceChar | NotSpaceChar | BeforeLineEnd | NotNul

  predicate Matches(k: Class, c: char) {
    match k
    case Blank => IsSpace(c)
    case Visible => !IsSpace(c)
    case InLine => c != '\n'
    case Digit => '0' <= c <= '9'
    case SpaceChar => c == ' '
    case NotSpaceChar => c != ' '
    case BeforeLineEnd => c != '\r' && c != '\n'
    case NotNul => c != '\0'
  }

  /** isspace in the C locale. */
  predicate IsSpace(c: char) {
    c == ' ' || c == '\t' || c == '\n' || c == '\U{0B}' || c == '\U{0C}' || c == '\r'
  }

  /** The length of the longest prefix within the class, as strspn and strcspn measure it. */
  function Span(k: Class, s: string): (n: nat)
    ensures n <= |s|
  {
    if s == [] || !Matches(k, s[0]) then 0 else 1 + Span(k, s[1..])
  }

  function SkipSpace(s: string): string {
    s[Span(Blank, s)..]
  }

  /** The decimal digits printf gives a number. */
  function Digits(n: nat): string {
    (if n < 10 then "" else Digits(n / 10)) + [DigitOf(n % 10)]
  }

  function DigitOf(d: nat): (c: char)
    requires d < 10
    ensures '0' <= c <= '9' && c as int == '0' as int + d
  {
    ('0' as int + d) as char
  }

  function Decimal(n: int): string {
    if n < 0 then "-" + Digits(-n) else Digits(n)
  }

  function ValueOf(digits: string): int {
    if digits == [] then 0
    else 10 * ValueOf(digits[..|digits| - 1]) + (digits[|digits| - 1] as int - '0' as int)
  }

  /** The digits at the front of a text: how many, and the number they denote. */
  function ReadDigits(s: string): (r: (nat, int))
    ensures r.0 <= |s|
  {
    var n := Span(Digit, s);
    (n, ValueOf(s[..n]))
  }

  /** What %d takes from the front of a text: how many characters, none on a matching
      failure, and the number they denote. */
  function ReadNumber(s: string): (r: (nat, int))
    ensures r.0 <= |s|
  {
    if s != [] && (s[0] == '+' || s[0] == '-') then
      var (n, v) := ReadDigits(s[1..]);
      if n == 0 then (0, 0) else (1 + n, if s[0] == '-' then -v else v)
    else ReadDigits(s)
  }

  function Head(field: Field): string {
    match field
    case Text(t) => t
    case Int(n) => Decimal(n)
  }

  function Print(format: seq<Directive>, fields: seq<Field>): string {
    if format == [] then ""
    else
      match format[0]
      case Space => " " + Print(format[1..], fields)
      case Literal(t) => t + Print(format[1..], fields)
      case _ =>
        if fields == [] then ""
        else Head(fields[0]) + Print(format[1..], fields[1..])
  }

  /** The fields sscanf assigns before it stops; their number is its result. */
  function Scan(format: seq<Directive>, input: string): seq<Field> {
    if format == [] then []
    else
      var rest := format[1..];
      match format[0]
      case Space => Scan(rest, SkipSpace(input))
      case Literal(t) => if t <= input then Scan(rest, input[|t|..]) else []
      case Word =>
        var s := SkipSpace(input);
        var n := Span(Visible, s);
        if n == 0 then [] else [Text(s[..n])] + Scan(rest, s[n..])
      case Line =>
        var n := Span(InLine, input);
        if n == 0 then [] else [Text(input[..n])] + Scan(rest, input[n..])
      case Number =>
        var s := SkipSpace(input);
        var (n, v) := ReadNumber(s);
        if n == 0 then [] else [Int(v)] + Scan(rest, s[n..])
  }

  /** A text of the class that meets a character outside it ends there. */
  lemma {:induction false} SpanStops(k: Class, s: string, tail: string)
    requires forall c | c in s :: Matches(k, c)
    requires tail != [] ==> !Matches(k, tail[0])
    ensures Span(k, s + tail) == |s| && (s + tail)[..|s|] == s && (s + tail)[|s|..] == tail
  {
    if s != [] {
      SpanStops(k, s[1..], tail);
      assert (s + tail)[1..] == s[1..] + tail;
    } else {
      assert s + tail == tail;
    }
  }

  // ---- Numbers ----

  lemma {:induction false} DigitsRead(n: nat)
    ensures AllDigits(Digits(n))
    ensures ValueOf(Digits(n)) == n
  {
    if n >= 10 {
      DigitsRead(n / 10);
      var d := Digits(n / 10);
      assert Digits(n)[..|Digits(n)| - 1] == d;
    } else {
      assert Digits(n) == [DigitOf(n)];
    }
  }

  // ---- Round trip ----

  /** A non-empty text without white space. */
  predicate Token(s: string) {
    s != [] && forall c | c in s :: !IsSpace(c)
  }

  /** A non-empty text without line ends that does not start with white space. */
  predicate Body(s: string) {
    s != [] && !IsSpace(s[0]) && forall c | c in s :: c != '\n' && c != '\r'
  }

  /** The fields are what the conversions of the format can carry. */
  predicate Fits(format: seq<Directive>, fields: seq<Field>) {
    if format == [] then fields == []
    else
      match format[0]
      case Space => Fits(format[1..], fields)
      case Literal(t) => Token(t) && Fits(format[1..], fields)
      case Word => fields != [] && fields[0].Text? && Token(fields[0].text) && Fits(format[1..], fields[1..])
      case Line => fields != [] && fields[0].Text? && Body(fields[0].text) && Fits(format[1..], fields[1..])
      case Number => fields != [] && fields[0].Int? && Fits(format[1..], fields[1..])
  }

  /** Conversions are set apart by white space, and nothing follows a %[^\n]. */
  predicate Separated(format: seq<Directive>) {
    format == []
    || (&& Separated(format[1..])
        && match format[0]
           case Space => |format| > 1 && !format[1].Space?
           case Literal(_) => true
           case Line => |format| == 1
           case _ => |format| == 1 || format[1].Space?)
  }

  /** A format and fields that printing and scanning agree on, built up from the back. */
  predicate Good(format: seq<Directive>, fields: seq<Field>) {
    Separated(format) && Fits(format, fields)
  }

  lemma GoodSpace(rest: seq<Directive>, fields: seq<Field>)
    requires Good(rest, fields) && rest != [] && !rest[0].Space?
    ensures Good([Space] + rest, fields)
  {
  }

  lemma GoodLiteral(t: string, rest: seq<Directive>, fields: seq<Field>)
    requires Good(rest, fields) && Token(t)
    ensures Good([Literal(t)] + rest, fields)
  {
  }

  lemma GoodConversion(d: Directive, rest: seq<Directive>, f: Field, fields: seq<Field>)
    requires Good(rest, fields) && (rest == [] || (rest[0].Space? && !d.Line?))
    requires (d.Word? && f.Text? && Token(f.text)) || (d.Line? && f.Text? && Body(f.text)) || (d.Number? && f.Int?)
    ensures Good([d] + rest, [f] + fields)
  {
  }

  /** What may follow the printed text: nothing, or a line end. */
  predicate Ends(tail: string) {
    tail == [] || tail[0] == '\n'
  }

  lemma {:induction false} PrintStartsVisible(format: seq<Directive>, fields: seq<Field>)
    requires format != [] && !format[0].Space? && Fits(format, fields)
    ensures Print(format, fields) != [] && !IsSpace(Print(format, fields)[0])
  {
    if format[0].Number? && fields[0].value >= 0 {
      DigitsRead(fields[0].value);
      assert Digits(fields[0].value)[0] in Digits(fields[0].value);
    }
  }

  lemma SkipNothing(s: string)
    requires s == [] || !IsSpace(s[0])
    ensures SkipSpace(s) == s && SkipSpace(" " + s) == s
  {
  }

  lemma ScanWord(w: string, rest: seq<Directive>, after: string)
    requires Token(w) && (after == [] || IsSpace(after[0]))
    ensures Scan([Word] + rest, w + after) == [Text(w)] + Scan(rest, after)
  {
    SkipNothing(w + after);
    SpanStops(Visible, w, after);
    assert ([Word] + rest)[1..] == rest;
  }

  lemma ScanLine(w: string, rest: seq<Directive>, after: string)
    requires Body(w) && Ends(after)
    ensures Scan([Line] + rest, w + after) == [Text(w)] + Scan(rest, after)
  {
    SpanStops(InLine, w, after);
    assert ([Line] + rest)[1..] == rest;
  }

  predicate AllDigits(s: string) {
    s != [] && forall c | c in s :: '0' <= c <= '9'
  }

  lemma DigitsEnd(digits: string, after: string)
    requires AllDigits(digits) && (after == [] || IsSpace(after[0]))
    ensures ReadDigits(digits + after) == (|digits|, ValueOf(digits))
  {
    SpanStops(Digit, digits, after);
  }

  lemma ReadUnsigned(digits: string, after: string)
    requires AllDigits(digits) && (after == [] || IsSpace(after[0]))
    ensures ReadNumber(digits + after) == (|digits|, ValueOf(digits))
  {
    DigitsEnd(digits, after);
    assert (digits + after)[0] == digits[0] && digits[0] in digits;
  }

  lemma ReadNegative(s: string, digits: string, after: string)
    requires AllDigits(digits) && (after == [] || IsSpace(after[0]))
    requires s != [] && s[0] == '-' && s[1..] == digits + after
    ensures ReadNumber(s) == (1 + |digits|, -ValueOf(digits))
  {
    DigitsEnd(digits, after);
  }

  lemma MinusThen(digits: string, after: string)
    ensures var s := "-" + digits + after;
            s[0] == '-' && s[1..] == digits + after && |s| == 1 + |digits| + |after|
  {
  }

  lemma ReadMinus(digits: string, after: string)
    requires AllDigits(digits) && (after == [] || IsSpace(after[0]))
    ensures ReadNumber("-" + digits + after) == (1 + |digits|, -ValueOf(digits))
  {
    MinusThen(digits, after);
    ReadNegative("-" + digits + after, digits, after);
  }

  lemma ReadBelowZero(n: int, after: string)
    requires n < 0
    requires after == [] || IsSpace(after[0])
    ensures ReadNumber("-" + Digits(-n) + after) == (1 + |Digits(-n)|, n)
  {
    DigitsRead(-n);
    ReadMinus(Digits(-n), after);
  }

  lemma ReadFromZero(n: nat, after: string)
    requires after == [] || IsSpace(after[0])
    ensures Digits(n) != [] && !IsSpace(Digits(n)[0])
    ensures ReadNumber(Digits(n) + after) == (|Digits(n)|, n)
  {
    DigitsRead(n);
    assert Digits(n)[0] in Digits(n);
    ReadUnsigned(Digits(n), after);
  }

  lemma ReadDecimal(n: int, after: string)
    requires after == [] || IsSpace(after[0])
    ensures Decimal(n) != [] && !IsSpace(Decimal(n)[0])
    ensures ReadNumber(Decimal(n) + after) == (|Decimal(n)|, n)
  {
    if n < 0 {
      ReadBelowZero(n, after);
    } else {
      ReadFromZero(n, after);
    }
  }

  lemma ScanNumber(n: int, rest: seq<Directive>, after: string)
    requires after == [] || IsSpace(after[0])
    ensures Scan([Number] + rest, Decimal(n) + after) == [Int(n)] + Scan(rest, after)
  {
    ReadDecimal(n, after);
    SkipNothing(Decimal(n) + after);
    assert (Decimal(n) + after)[|Decimal(n)|..] == after;
    assert ([Number] + rest)[1..] == rest;
  }

  lemma ScanLiteral(t: string, rest: seq<Directive>, after: string)
    ensures Scan([Literal(t)] + rest, t + after) == Scan(rest, after)
  {
  }

  /** A literal that does not match, after white space, ends the scan. */
  lemma ScanMismatch(t: string, rest: seq<Directive>, s: string)
    requires s != [] && !IsSpace(s[0]) && t != [] && t[0] != s[0]
    ensures Scan([Space] + ([Literal(t)] + rest), " " + s) == []
  {
    SkipNothing(s);
    var f := [Literal(t)] + rest;
    assert ([Space] + f)[1..] == f;
    assert !(t <= s);
  }

  /** For every format whose conversions are set apart, scanning what was printed recovers
      exactly the fields. */
  lemma {:induction false} ScanInvertsPrint(format: seq<Directive>, fields: seq<Field>, tail: string)
    requires Separated(format) && Fits(format, fields) && Ends(tail)
    ensures Scan(format, Print(format, fields) + tail) == fields
  {
    if format != [] {
      var rest := format[1..];
      assert format == [format[0]] + rest;
      if format[0].Space? || format[0].Literal? {
        ScanInvertsPrint(rest, fields, tail);
        InvertPlain(format[0], rest, fields, tail);
      } else {
        ScanInvertsPrint(rest, fields[1..], tail);
        InvertConversion(format[0], rest, fields, tail);
      }
    }
  }

  lemma InvertPlain(d: Directive, rest: seq<Directive>, fields: seq<Field>, tail: string)
    requires (d.Space? && rest != [] && !rest[0].Space?) || d.Literal?
    requires Fits(rest, fields) && Scan(rest, Print(rest, fields) + tail) == fields
    ensures Scan([d] + rest, Print([d] + rest, fields) + tail) == fields
  {
    var s := Print(rest, fields) + tail;
    assert ([d] + rest)[1..] == rest;
    if d.Space? {
      PrintStartsVisible(rest, fields);
      SkipNothing(s);
      assert Print([d] + rest, fields) + tail == " " + s;
    } else {
      assert Print([d] + rest, fields) + tail == d.text + s;
      ScanLiteral(d.text, rest, s);
    }
  }

  lemma InvertConversion(d: Directive, rest: seq<Directive>, fields: seq<Field>, tail: string)
    requires !d.Space? && !d.Literal? && fields != [] && Fits([d], fields[..1])
    requires rest == [] || (!d.Line? && rest[0].Space?)
    requires Ends(tail) && Scan(rest, Print(rest, fields[1..]) + tail) == fields[1..]
    ensures Scan([d] + rest, Print([d] + rest, fields) + tail) == fields
  {
    var after := Print(rest, fields[1..]) + tail;
    assert ([d] + rest)[1..] == rest;
    assert Print([d] + rest, fields) + tail == Head(fields[0]) + after;
    ScanConversion(d, fields[0], rest, after);
    assert fields == [fields[0]] + fields[1..];
  }

  lemma ScanConversion(d: Directive, f: Field, rest: seq<Directive>, after: string)
    requires after == [] || (if d.Line? then Ends(after) else IsSpace(after[0]))
    requires (d.Word? && f.Text? && Token(f.text)) || (d.Line? && f.Text? && Body(f.text)) || (d.Number? && f.Int?)
    ensures Scan([d] + rest, Head(f) + after) == [f] + Scan(rest, after)
  {
    if d.Word? {
      ScanWord(f.text, rest, after);
    } else if d.Line? {
      ScanLine(f.text, rest, after);
    } else {
      ScanNumber(f.value, rest, after);
    }
  }

  /** An ordinary character after the last conversion changes no field. */
  lemma {:induction false} TrailingLiteral(format: seq<Directive>, t: string, input: string)
    ensures Scan(format + [Literal(t)], input) == Scan(format, input)
  {
    var f := format + [Literal(t)];
    if format == [] {
      assert f[1..] == [];
    } else {
      assert f[0] == format[0] && f[1..] == format[1..] + [Literal(t)];
      forall s: string
        ensures Scan(f[1..], s) == Scan(format[1..], s)
      {
        TrailingLiteral(format[1..], t, s);
      }
    }
  }
}
