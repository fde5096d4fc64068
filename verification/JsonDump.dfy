/** `dump`: printing a value, and what scanning and parsing the text gives back. */
module JsonDump {
  import opened JsonNumber
  import opened JsonParser
  import opened JsonScanner
  import opened JsonString
  import opened JsonValue
  import opened Outcomes
  import opened Utf8

  const UINT_RANGE: nat := 0x1_0000_0000

  function Spaces(n: nat): string {
    seq(n, _ => ' ')
  }

  /** How a value is laid out: `current` and `step` are 32-bit numbers of spaces. */
  datatype Layout = Layout(pretty: bool, step: nat, current: nat) {
    function Deeper(): Layout {
      if pretty then Layout(pretty, step, (current + step) % UINT_RANGE) else this
    }

    function NewLine(): string {
      if pretty then "\n" else ""
    }

    function Separator(): string {
      if pretty then ",\n" else ","
    }

    function AfterColon(): string {
      if pretty then " " else ""
    }

    function Indent(): string {
      Spaces(current)
    }
  }

  function Quoted(s: string): string {
    "\"" + Escaped(s) + "\""
  }

  /** `dump`; how floating-point numbers are printed is a parameter. */
  function Dump(number: Double -> string, j: Json, l: Layout): string
    decreases j, 1, 0
  {
    match j
    case Obj(o) =>
      if o == map[] then "{}"
      else
        "{" + l.NewLine() + DumpMembers(number, j, SortedKeys(o.Keys), l.Deeper()) + l.NewLine() + l.Indent() + "}"
    case Arr(a) =>
      if a == [] then "[]"
      else
        "[" + l.NewLine() + DumpElements(number, j, 0, l.Deeper()) + l.NewLine() + l.Indent() + "]"
    case Str(s) => Quoted(s)
    case Bool(b) => if b then "true" else "false"
    case Int(i) => IntText(i)
    case Uint(u) => IntText(u)
    case Float(f) => number(f)
    case Null => "null"
  }

  /** The elements from the `n`-th on. */
  function DumpElements(number: Double -> string, j: Json, n: nat, l: Layout): string
    requires j.Arr? && n < |j.a|
    decreases j, 0, |j.a| - n
  {
    l.Indent() + Dump(number, j.a[n], l)
      + (if n + 1 < |j.a| then l.Separator() + DumpElements(number, j, n + 1, l) else "")
  }

  function DumpMembers(number: Double -> string, j: Json, ks: seq<string>, l: Layout): string
    requires j.Obj? && forall k | k in ks :: k in j.o
    decreases j, 0, |ks|
  {
    if ks == [] then ""
    else
      l.Indent() + Quoted(ks[0]) + ":" + l.AfterColon() + Dump(number, j.o[ks[0]], l)
        + (if |ks| > 1 then l.Separator() + DumpMembers(number, j, ks[1..], l) else "")
  }

  /** The public `dump`: a negative indent means everything on one line. */
  function DumpText(number: Double -> string, j: Json, indent: int): string {
    Dump(number, j, if indent >= 0 then Layout(true, indent % UINT_RANGE, 0) else Layout(false, 0, 0))
  }

  // ----- the syntax of the printed text -----

  function SyntaxOf(number: Double -> string, j: Json): Syntax
    decreases j, 1, 0
  {
    match j
    case Obj(o) => ObjectText(SyntaxOfMembers(number, j, SortedKeys(o.Keys)))
    case Arr(a) => ArrayText(SyntaxOfElements(number, j, 0))
    case Str(s) => StringText(Quoted(s))
    case Bool(b) => if b then TrueWord else FalseWord
    case Int(i) => NumberText(IntText(i))
    case Uint(u) => NumberText(IntText(u))
    case Float(f) => NumberText(number(f))
    case Null => NullWord
  }

  function SyntaxOfElements(number: Double -> string, j: Json, n: nat): (es: seq<Syntax>)
    requires j.Arr? && n <= |j.a|
    ensures |es| == |j.a| - n
    decreases j, 0, |j.a| - n
  {
    if n == |j.a| then [] else [SyntaxOf(number, j.a[n])] + SyntaxOfElements(number, j, n + 1)
  }

  function SyntaxOfMembers(number: Double -> string, j: Json, ks: seq<string>): (ms: seq<Member>)
    requires j.Obj? && forall k | k in ks :: k in j.o
    ensures |ms| == |ks|
    decreases j, 0, |ks|
  {
    if ks == [] then []
    else [Member(Quoted(ks[0]), SyntaxOf(number, j.o[ks[0]]))] + SyntaxOfMembers(number, j, ks[1..])
  }

  /** What is known about the printing of doubles: finite ones are printed as numbers of the grammar, the others
      by their names. */
  ghost predicate PrintsDoubles(number: Double -> string) {
    forall f: Double :: if f.Finite? then IsNumber(number(f)) else number(f) in NAMES
  }

  const NAMES: set<string> := {"nan", "-nan", "inf", "-inf"}

  /** All strings and keys are well-formed UTF-8, all numbers are finite. */
  predicate Readable(j: Json) {
    match j
    case Str(s) => WellFormed(s)
    case Float(f) => f.Finite?
    case Arr(a) => forall i | 0 <= i < |a| :: Readable(a[i])
    case Obj(o) => forall k | k in o :: WellFormed(k) && Readable(o[k])
    case _ => true
  }

  // ----- reading pieces of text -----

  /** The token stream ends in an error. */
  predicate Broken(ts: seq<Token>) {
    ts != [] && ts[|ts| - 1].kind == ParseError
  }

  /** In front of `rest`, a good text is read as the tokens `ts` and a bad one as an error. */
  ghost predicate Reads(text: string, rest: string, good: bool, ts: seq<Token>) {
    if good then Stream(text + rest) == ts + Stream(rest) else Broken(Stream(text + rest))
  }

  lemma StreamNotEmpty(s: string)
    ensures Stream(s) != []
  {
    StreamIsScanned(s);
  }

  lemma ReadsBoth(a: string, b: string, rest: string, good: bool, alsoGood: bool, ts: seq<Token>, us: seq<Token>)
    requires Reads(a, b + rest, good, ts) && Reads(b, rest, alsoGood, us)
    ensures Reads(a + b, rest, good && alsoGood, ts + us)
  {
    hide Stream;
    assert a + b + rest == a + (b + rest);
    StreamNotEmpty(b + rest);
    if good && alsoGood {
      assert ts + (us + Stream(rest)) == ts + us + Stream(rest);
    } else if good {
      var more := Stream(b + rest);
      assert (ts + more)[|ts + more| - 1] == more[|more| - 1];
    }
  }

  predicate Blank(s: string) {
    forall i | 0 <= i < |s| :: IsBlank(s[i])
  }

  lemma {:induction false} BlankCountAppend(ws: string, rest: string)
    requires Blank(ws)
    ensures BlankCount(ws + rest) == |ws| + BlankCount(rest)
    decreases |ws|
  {
    if ws == "" {
      assert ws + rest == rest;
    } else {
      BlankCountAppend(ws[1..], rest);
      assert (ws + rest)[1..] == ws[1..] + rest;
    }
  }

  /** Blanks between tokens do not matter. */
  lemma ReadsBlank(ws: string, rest: string)
    requires Blank(ws)
    ensures Reads(ws, rest, true, [])
  {
    hide Lex, BlankCount;
    BlankCountAppend(ws, rest);
    var s := ws + rest;
    assert s[BlankCount(s)..] == rest[BlankCount(rest)..];
    assert [] + Stream(rest) == Stream(rest);
  }

  /** One token. */
  lemma ReadsToken(w: string, rest: string, kind: TokenType)
    requires w != "" && !IsBlank(w[0]) && !Terminal(kind)
    requires Lex(w + rest) == Lexed(kind, |w|)
    ensures Reads(w, rest, true, [Tagged(kind, w)])
  {
    hide Lex, Tagged;
    var s := w + rest;
    NoBlank(s);
    assert s[BlankCount(s)..] == s && s[..|w|] == w && s[|w|..] == rest;
  }

  lemma ReadsError(w: string, rest: string)
    requires w != "" && !IsBlank(w[0]) && Lex(w + rest).token == ParseError
    ensures Reads(w, rest, false, [])
  {
    hide Lex;
    var s := w + rest;
    NoBlank(s);
    assert s[BlankCount(s)..] == s;
  }

  /** The six structural characters. */
  function Structural(kind: TokenType): string {
    match kind
    case BeginArray => "["
    case EndArray => "]"
    case BeginObject => "{"
    case EndObject => "}"
    case NameSeparator => ":"
    case ValueSeparator => ","
    case _ => ""
  }

  lemma ReadsMark(kind: TokenType, rest: string)
    requires Structural(kind) != ""
    ensures Reads(Structural(kind), rest, true, Mark(kind))
  {
    hide NumberLength, BodyEnd;
    var w := Structural(kind);
    assert (w + rest)[0] == w[0];
    assert Lex(w + rest) == Lexed(kind, 1);
    ReadsToken(w, rest, kind);
  }

  lemma ReadsWord(w: string, rest: string, kind: TokenType)
    requires (w == "true" && kind == LiteralTrue) || (w == "false" && kind == LiteralFalse)
          || (w == "null" && kind == LiteralNull)
    ensures Reads(w, rest, true, Mark(kind))
  {
    hide NumberLength, BodyEnd;
    assert (w + rest)[0] == w[0] && w <= w + rest;
    assert Lex(w + rest) == Lexed(kind, |w|);
    ReadsToken(w, rest, kind);
  }

  lemma ReadsNumber(w: string, rest: string)
    requires IsNumber(w) && EndsNumber(rest)
    ensures Reads(w, rest, true, [Token(ValueNumber, w)])
  {
    hide IsNumber, NumberLength, BodyEnd;
    NumberLengthEnds(w, rest);
    NumberStarts(w);
    assert (w + rest)[0] == w[0];
    assert Lex(w + rest) == Lexed(ValueNumber, |w|);
    ReadsToken(w, rest, ValueNumber);
  }

  /** The name of a double that is not finite is no token. */
  lemma ReadsName(w: string, rest: string)
    requires w in NAMES
    ensures Reads(w, rest, false, [])
  {
    hide BodyEnd, Reads;
    var s := w + rest;
    assert s[0] == w[0] && s[1] == w[1] && s[1..][0] == w[1];
    ReadsError(w, rest);
  }

  lemma ReadsFloat(number: Double -> string, f: Double, rest: string)
    requires PrintsDoubles(number) && EndsNumber(rest)
    ensures Reads(number(f), rest, f.Finite?, [Token(ValueNumber, number(f))])
  {
    hide IsNumber, EndsNumber;
    if f.Finite? {
      ReadsNumber(number(f), rest);
    } else {
      ReadsName(number(f), rest);
    }
  }

  // ----- string literals -----

  /** Text without a bare quote: every quote is part of a complete escape. */
  predicate Quotable(p: string)
    decreases |p|
  {
    if p == "" then true
    else if p[0] == '\\' then EscapeLength(p) > 0 && Quotable(p[EscapeLength(p)..])
    else p[0] != '"' && Quotable(p[1..])
  }

  lemma {:induction false} PlainIsQuotable(p: string, n: nat)
    requires n <= |p| && Quotable(p[n..]) && forall i | 0 <= i < n :: p[i] != '\\' && p[i] != '"'
    ensures Quotable(p)
    decreases n
  {
    hide EscapeLength;
    if n == 0 {
      assert p[0..] == p;
    } else {
      assert p[1..][n - 1..] == p[n..];
      PlainIsQuotable(p[1..], n - 1);
    }
  }

  lemma {:induction false} StringBodyIsQuotable(p: string)
    requires StringBody(p)
    ensures Quotable(p)
    decreases |p|
  {
    hide CharLength, EscapeLength;
    if p != "" {
      var n := UnitLength(p);
      StringBodyIsQuotable(p[n..]);
      if p[0] != '\\' {
        PlainUnit(p);
        forall i | 0 <= i < n ensures p[i] != '"' { UnitHasNoQuote(p, i); }
        PlainIsQuotable(p, n);
      }
    }
  }

  lemma UnitHasNoQuote(p: string, i: nat)
    requires UnitLength(p) > 0 && p[0] != '\\' && i < UnitLength(p)
    ensures p[i] != '"'
  {
    if CharLength(p) > 1 {
      MultiByteChar(p, i);
    }
  }

  lemma EscapeAppend(p: string, rest: string)
    requires EscapeLength(p) > 0
    ensures EscapeLength(p + rest) == EscapeLength(p)
  {
    if p[1] == 'u' {
      assert (p + rest)[2..] == p[2..] + rest;
    }
  }

  /** There is only one place where such text can be closed by a quote. */
  lemma {:induction false} QuotableEndIsUnique(p: string, q: string, x: string, y: string)
    requires Quotable(p) && Quotable(q) && p + ("\"" + x) == q + ("\"" + y)
    ensures p == q
    decreases |p|
  {
    var s := p + ("\"" + x);
    assert s[|p|] == '"' && s[|q|] == '"';
    assert (p != "" ==> s[0] == p[0]) && (q != "" ==> s[0] == q[0]);
    if p != "" && q != "" {
      if p[0] == '\\' {
        EscapeAppend(p, "\"" + x);
        EscapeAppend(q, "\"" + y);
      }
      var n := if p[0] == '\\' then EscapeLength(p) else 1;
      assert s[n..] == p[n..] + ("\"" + x) && s[n..] == q[n..] + ("\"" + y);
      QuotableEndIsUnique(p[n..], q[n..], x, y);
      assert p == s[..n] + p[n..] && q == s[..n] + q[n..];
    }
  }

  lemma EscapedCharIsQuotable(c: char, rest: string)
    requires Quotable(rest)
    ensures Quotable(EscapedChar(c) + rest)
  {
    var e := EscapedChar(c);
    var s := e + rest;
    assert s[|e|..] == rest;
    if c as int < 0x80 {
      EscapedAsciiUnit(c, rest);
    }
    assert EscapeLetter('"').Some? && EscapeLetter('\\').Some?;
  }

  lemma {:induction false} EscapedIsQuotable(s: string)
    ensures Quotable(Escaped(s))
    decreases |s|
  {
    hide EscapedChar;
    if s != "" {
      EscapedCons(s);
      EscapedIsQuotable(s[1..]);
      EscapedCharIsQuotable(s[0], Escaped(s[1..]));
    }
  }

  /** The escaped form of a string is the inside of a string literal exactly if it is well-formed. */
  lemma EscapedIsStringBodyExactly(s: string)
    ensures StringBody(Escaped(s)) <==> WellFormed(s)
  {
    if WellFormed(s) {
      EscapedIsStringBody(s);
    }
    if StringBody(Escaped(s)) {
      DecodeEscaped(s);
      DecodedIsWellFormed(Escaped(s));
    }
  }

  /** A printed string is read as one token if it is well-formed UTF-8, and as an error otherwise. */
  lemma ReadsString(s: string, rest: string)
    ensures Reads(Quoted(s), rest, WellFormed(s), [Token(ValueString, Quoted(s))])
  {
    hide Escaped, Stream, StringBody, WellFormed, Quotable, BodyEnd, Lex;
    var w, e := Quoted(s), Escaped(s);
    var t := w + rest;
    EscapedIsStringBodyExactly(s);
    LexOfString(t);
    assert t[0] == '"' && t[1..] == e + ("\"" + rest);
    if WellFormed(s) {
      assert t[1..] == e + "\"" + rest;
      BodyEndOf(e, rest);
      ReadsToken(w, rest, ValueString);
    } else {
      if BodyEnd(t[1..]).Some? {
        BodyEndBound(t[1..]);
        var n := BodyEnd(t[1..]).value;
        var p, y := t[1..][..n - 1], t[1..][n..];
        assert t[1..] == p + ("\"" + y);
        StringBodyIsQuotable(p);
        EscapedIsQuotable(s);
        QuotableEndIsUnique(p, e, y, rest);
      }
      ReadsError(w, rest);
    }
  }

  // ----- containers -----

  /** A text between brackets. */
  lemma ReadsBracketed(open: TokenType, close: TokenType, l: Layout, text: string, rest: string, good: bool,
                       ts: seq<Token>)
    requires Structural(open) != "" && Structural(close) != ""
    requires Reads(text, l.NewLine() + l.Indent() + Structural(close) + rest, good, ts)
    ensures Reads(Structural(open) + l.NewLine() + text + l.NewLine() + l.Indent() + Structural(close), rest, good,
                  Mark(open) + ts + Mark(close))
  {
    hide Reads, Structural;
    var o, nl, ws, c := Structural(open), l.NewLine(), l.NewLine() + l.Indent(), Structural(close);
    ReadsMark(close, rest);
    ReadsBlank(ws, c + rest);
    ReadsBoth(ws, c, rest, true, true, [], Mark(close));
    assert ws + c + rest == l.NewLine() + l.Indent() + Structural(close) + rest;
    ReadsBoth(text, ws + c, rest, good, true, ts, [] + Mark(close));
    ReadsBlank(nl, text + (ws + c) + rest);
    ReadsBoth(nl, text + (ws + c), rest, true, good, [], ts + ([] + Mark(close)));
    var inner := nl + (text + (ws + c));
    ReadsMark(open, inner + rest);
    ReadsBoth(o, inner, rest, true, good, Mark(open), [] + (ts + ([] + Mark(close))));
    assert o + inner == o + nl + text + l.NewLine() + l.Indent() + c;
    assert Mark(open) + ([] + (ts + ([] + Mark(close)))) == Mark(open) + ts + Mark(close);
  }

  /** What may follow a value inside brackets ends a number. */
  lemma CloseEndsNumber(l: Layout, close: TokenType, rest: string)
    requires close == EndArray || close == EndObject
    ensures EndsNumber(l.NewLine() + l.Indent() + Structural(close) + rest)
  {
    var s := l.NewLine() + l.Indent() + Structural(close) + rest;
    assert s[0] == '\n' || s[0] == ' ' || s[0] == Structural(close)[0];
  }

  lemma ReadsSeparator(l: Layout, rest: string)
    ensures Reads(l.Separator(), rest, true, Mark(ValueSeparator))
  {
    hide Reads;
    var nl := l.NewLine();
    ReadsMark(ValueSeparator, nl + rest);
    ReadsBlank(nl, rest);
    ReadsBoth(",", nl, rest, true, true, Mark(ValueSeparator), []);
    assert Mark(ValueSeparator) + [] == Mark(ValueSeparator);
    assert "," + nl == l.Separator();
  }

  /** Whether the elements from the `n`-th on are well-formed. */
  predicate GoodElements(j: Json, n: nat)
    requires j.Arr?
  {
    forall i | n <= i < |j.a| :: Readable(j.a[i])
  }

  predicate GoodMembers(j: Json, ks: seq<string>)
    requires j.Obj? && forall k | k in ks :: k in j.o
  {
    forall k | k in ks :: WellFormed(k) && Readable(j.o[k])
  }

  /** A separator and what comes after it. */
  lemma ReadsMore(l: Layout, more: string, rest: string, good: bool, ts: seq<Token>)
    requires Reads(more, rest, good, ts)
    ensures Reads(l.Separator() + more, rest, good, Mark(ValueSeparator) + ts)
  {
    hide Reads;
    ReadsSeparator(l, more + rest);
    ReadsBoth(l.Separator(), more, rest, true, good, Mark(ValueSeparator), ts);
  }

  /** Indentation in front of a text. */
  lemma ReadsIndented(l: Layout, text: string, rest: string, good: bool, ts: seq<Token>)
    requires Reads(text, rest, good, ts)
    ensures Reads(l.Indent() + text, rest, good, ts)
  {
    hide Reads;
    ReadsBlank(l.Indent(), text + rest);
    ReadsBoth(l.Indent(), text, rest, true, good, [], ts);
    assert [] + ts == ts;
  }

  /** A member: name, colon and value. */
  lemma ReadsMember(name: string, l: Layout, text: string, value: Syntax, rest: string, good: bool)
    requires Reads(text, rest, good, Flat(value))
    ensures Reads(Quoted(name) + ":" + l.AfterColon() + text, rest, WellFormed(name) && good,
                  FlatMember(Member(Quoted(name), value)))
  {
    hide Reads, Quoted, WellFormed, Flat;
    var ts, q, after := Flat(value), Quoted(name), l.AfterColon();
    ReadsBlank(after, text + rest);
    ReadsBoth(after, text, rest, true, good, [], ts);
    ReadsMark(NameSeparator, after + text + rest);
    ReadsBoth(":", after + text, rest, true, good, Mark(NameSeparator), [] + ts);
    var tail := ":" + (after + text);
    ReadsString(name, tail + rest);
    ReadsBoth(q, tail, rest, WellFormed(name), good, [Token(ValueString, q)], Mark(NameSeparator) + ([] + ts));
    assert q + tail == q + ":" + after + text;
    assert [Token(ValueString, q)] + (Mark(NameSeparator) + ([] + ts)) == FlatMember(Member(q, value));
  }

  /** A printed value is read back as its own syntax if it is well-formed, and as an error otherwise,
      whatever the layout. */
  lemma {:induction false} ReadsDump(number: Double -> string, j: Json, l: Layout, rest: string)
    requires PrintsDoubles(number) && EndsNumber(rest)
    ensures Reads(Dump(number, j, l), rest, Readable(j), Flat(SyntaxOf(number, j)))
    decreases j, 1, 0
  {
    hide Reads, Quoted, IntText, EndsNumber, IsNumber, PrintsDoubles;
    match j
    case Obj(o) =>
      ReadsObject(number, j, l, rest);
    case Arr(a) =>
      ReadsArray(number, j, l, rest);
    case Str(s) => ReadsString(s, rest);
    case Bool(b) => ReadsWord(if b then "true" else "false", rest, if b then LiteralTrue else LiteralFalse);
    case Int(i) =>
      IntTextIsNumber(i);
      ReadsNumber(IntText(i), rest);
    case Uint(u) =>
      IntTextIsNumber(u);
      ReadsNumber(IntText(u), rest);
    case Float(f) => ReadsFloat(number, f, rest);
    case _ => ReadsWord("null", rest, LiteralNull);
  }

  lemma {:induction false} ReadsArray(number: Double -> string, j: Json, l: Layout, rest: string)
    requires j.Arr? && PrintsDoubles(number)
    ensures Reads(Dump(number, j, l), rest, Readable(j), Flat(SyntaxOf(number, j)))
    decreases j, 0, |j.a| + 1
  {
    hide Reads, PrintsDoubles;
    if j.a == [] {
      ReadsMark(EndArray, rest);
      ReadsMark(BeginArray, "]" + rest);
      ReadsBoth("[", "]", rest, true, true, Mark(BeginArray), Mark(EndArray));
      assert "[" + "]" == "[]";
      assert SyntaxOf(number, j) == ArrayText([]);
      assert Flat(ArrayText([])) == Mark(BeginArray) + Mark(EndArray);
    } else {
      CloseEndsNumber(l, EndArray, rest);
      ReadsElements(number, j, 0, l.Deeper(), l.NewLine() + l.Indent() + "]" + rest);
      ReadsBracketed(BeginArray, EndArray, l, DumpElements(number, j, 0, l.Deeper()), rest, GoodElements(j, 0),
                     FlatElements(SyntaxOfElements(number, j, 0)));
      assert GoodElements(j, 0) == Readable(j);
    }
  }

  lemma {:induction false} ReadsElements(number: Double -> string, j: Json, n: nat, l: Layout, rest: string)
    requires j.Arr? && PrintsDoubles(number) && n < |j.a| && EndsNumber(rest)
    ensures Reads(DumpElements(number, j, n, l), rest, GoodElements(j, n), FlatElements(SyntaxOfElements(number, j, n)))
    decreases j, 0, |j.a| - n
  {
    hide Reads, Dump, SyntaxOf, Flat, Readable;
    var e, ts, good := Dump(number, j.a[n], l), Flat(SyntaxOf(number, j.a[n])), Readable(j.a[n]);
    if n + 1 == |j.a| {
      ReadsDump(number, j.a[n], l, rest);
      ReadsIndented(l, e, rest, good, ts);
      assert l.Indent() + e + "" == l.Indent() + e;
    } else {
      var more, us := DumpElements(number, j, n + 1, l), FlatElements(SyntaxOfElements(number, j, n + 1));
      ReadsElements(number, j, n + 1, l, rest);
      SeparatorEndsNumber(l, more + rest);
      ReadsDump(number, j.a[n], l, l.Separator() + (more + rest));
      ReadsNextElement(l, e, ts, more, us, rest, good, GoodElements(j, n + 1));
    }
    assert GoodElements(j, n) == (good && GoodElements(j, n + 1));
  }

  lemma ReadsNextElement(l: Layout, e: string, ts: seq<Token>, more: string, us: seq<Token>, rest: string,
                         good: bool, alsoGood: bool)
    requires Reads(e, l.Separator() + (more + rest), good, ts) && Reads(more, rest, alsoGood, us)
    ensures Reads(l.Indent() + e + (l.Separator() + more), rest, good && alsoGood, ts + Mark(ValueSeparator) + us)
  {
    hide Reads;
    var tail := l.Separator() + more;
    ReadsMore(l, more, rest, alsoGood, us);
    assert tail + rest == l.Separator() + (more + rest);
    ReadsBoth(e, tail, rest, good, alsoGood, ts, Mark(ValueSeparator) + us);
    ReadsIndented(l, e + tail, rest, good && alsoGood, ts + (Mark(ValueSeparator) + us));
    assert l.Indent() + (e + tail) == l.Indent() + e + tail;
    assert ts + (Mark(ValueSeparator) + us) == ts + Mark(ValueSeparator) + us;
  }

  lemma SeparatorEndsNumber(l: Layout, rest: string)
    ensures EndsNumber(l.Separator() + rest)
  {
    assert (l.Separator() + rest)[0] == ',';
  }

  lemma {:induction false} ReadsObject(number: Double -> string, j: Json, l: Layout, rest: string)
    requires j.Obj? && PrintsDoubles(number)
    ensures Reads(Dump(number, j, l), rest, Readable(j), Flat(SyntaxOf(number, j)))
    decreases j, 0, |SortedKeys(j.o.Keys)| + 1
  {
    hide Reads, PrintsDoubles, WellFormed, DumpMembers, FlatMembers, SyntaxOfMembers, SortedKeys, Sorted;
    var ks := SortedKeys(j.o.Keys);
    if j.o == map[] {
      ReadsEmptyObject(number, rest);
    } else {
      assert ks != [] by { var k :| k in j.o; assert k in ks; }
      CloseEndsNumber(l, EndObject, rest);
      ReadsMembers(number, j, ks, l.Deeper(), l.NewLine() + l.Indent() + "}" + rest);
      ReadsBracketed(BeginObject, EndObject, l, DumpMembers(number, j, ks, l.Deeper()), rest, GoodMembers(j, ks),
                     FlatMembers(SyntaxOfMembers(number, j, ks)));
      assert GoodMembers(j, ks) == Readable(j);
    }
  }

  lemma ReadsEmptyObject(number: Double -> string, rest: string)
    ensures Reads("{}", rest, true, Flat(SyntaxOf(number, Obj(map[]))))
  {
    hide Reads, SyntaxOf, Flat;
    ReadsMark(EndObject, rest);
    ReadsMark(BeginObject, "}" + rest);
    ReadsBoth("{", "}", rest, true, true, Mark(BeginObject), Mark(EndObject));
    assert "{" + "}" == "{}";
    SyntaxOfEmptyObject(number);
  }

  lemma SyntaxOfEmptyObject(number: Double -> string)
    ensures Flat(SyntaxOf(number, Obj(map[]))) == Mark(BeginObject) + Mark(EndObject)
  {
    assert SortedKeys({}) == [];
    assert SyntaxOf(number, Obj(map[])) == ObjectText([]);
    hide SyntaxOf, SortedKeys;
    assert Flat(ObjectText([])) == Mark(BeginObject) + Mark(EndObject);
  }

  lemma {:induction false} ReadsMembers(number: Double -> string, j: Json, ks: seq<string>, l: Layout, rest: string)
    requires j.Obj? && PrintsDoubles(number) && ks != [] && (forall k | k in ks :: k in j.o) && EndsNumber(rest)
    ensures Reads(DumpMembers(number, j, ks, l), rest, GoodMembers(j, ks), FlatMembers(SyntaxOfMembers(number, j, ks)))
    decreases j, 0, |ks|
  {
    hide Reads, Dump, SyntaxOf, Flat, FlatMember, Readable, Quoted, WellFormed;
    var k := ks[0];
    var v, c, good := Dump(number, j.o[k], l), SyntaxOf(number, j.o[k]), Readable(j.o[k]);
    GoodMembersSplit(j, ks);
    if |ks| == 1 {
      ReadsDump(number, j.o[k], l, rest);
      ReadsLastMember(k, l, v, c, rest, good);
    } else {
      var more, us := DumpMembers(number, j, ks[1..], l), FlatMembers(SyntaxOfMembers(number, j, ks[1..]));
      ReadsMembers(number, j, ks[1..], l, rest);
      SeparatorEndsNumber(l, more + rest);
      ReadsDump(number, j.o[k], l, l.Separator() + (more + rest));
      ReadsNextMember(k, l, v, c, more, us, rest, good, GoodMembers(j, ks[1..]));
    }
  }

  lemma ReadsLastMember(k: string, l: Layout, v: string, c: Syntax, rest: string, good: bool)
    requires Reads(v, rest, good, Flat(c))
    ensures Reads(l.Indent() + Quoted(k) + ":" + l.AfterColon() + v + "", rest, WellFormed(k) && good,
                  FlatMember(Member(Quoted(k), c)))
  {
    hide Reads, Flat, FlatMember, Quoted, WellFormed;
    var text := Quoted(k) + ":" + l.AfterColon() + v;
    ReadsMember(k, l, v, c, rest, good);
    ReadsIndented(l, text, rest, WellFormed(k) && good, FlatMember(Member(Quoted(k), c)));
    assert l.Indent() + Quoted(k) + ":" + l.AfterColon() + v + "" == l.Indent() + text;
  }

  lemma ReadsNextMember(k: string, l: Layout, v: string, c: Syntax, more: string, us: seq<Token>, rest: string,
                        good: bool, alsoGood: bool)
    requires Reads(v, l.Separator() + (more + rest), good, Flat(c)) && Reads(more, rest, alsoGood, us)
    ensures Reads(l.Indent() + Quoted(k) + ":" + l.AfterColon() + v + (l.Separator() + more), rest,
                  WellFormed(k) && good && alsoGood, FlatMember(Member(Quoted(k), c)) + Mark(ValueSeparator) + us)
  {
    hide Reads, Flat, FlatMember, Quoted, WellFormed;
    var text := Quoted(k) + ":" + l.AfterColon() + v;
    var ts, tail := FlatMember(Member(Quoted(k), c)), l.Separator() + more;
    ReadsMore(l, more, rest, alsoGood, us);
    assert tail + rest == l.Separator() + (more + rest);
    ReadsMember(k, l, v, c, tail + rest, good);
    ReadsBoth(text, tail, rest, WellFormed(k) && good, alsoGood, ts, Mark(ValueSeparator) + us);
    ReadsIndented(l, text + tail, rest, WellFormed(k) && good && alsoGood, ts + (Mark(ValueSeparator) + us));
    assert l.Indent() + (text + tail) == l.Indent() + Quoted(k) + ":" + l.AfterColon() + v + tail;
    assert ts + (Mark(ValueSeparator) + us) == ts + Mark(ValueSeparator) + us;
  }

  lemma GoodMembersSplit(j: Json, ks: seq<string>)
    requires j.Obj? && ks != [] && forall k | k in ks :: k in j.o
    ensures GoodMembers(j, ks) <==> WellFormed(ks[0]) && Readable(j.o[ks[0]]) && GoodMembers(j, ks[1..])
  {
    hide WellFormed, Readable;
    assert forall k :: k in ks <==> k == ks[0] || k in ks[1..];
  }

  // ----- the round trip -----

  /** What is read back: the same value, except that non-negative integers have become unsigned and doubles
      are what `get_number` makes of their text. */
  function Canon(strtod: string -> Double, number: Double -> string, j: Json): Json {
    match j
    case Int(i) => if i >= 0 then Uint(i) else j
    case Float(f) => NumberValue(strtod, number(f))
    case Arr(a) => Arr(seq(|a|, i requires 0 <= i < |a| => Canon(strtod, number, a[i])))
    case Obj(o) => Obj(map k | k in o :: Canon(strtod, number, o[k]))
    case _ => j
  }

  /** Every double survives being printed and read on its own. */
  predicate DoublesSurvive(strtod: string -> Double, number: Double -> string, j: Json) {
    match j
    case Float(f) => Eq(NumberValue(strtod, number(f)), j)
    case Arr(a) => forall i | 0 <= i < |a| :: DoublesSurvive(strtod, number, a[i])
    case Obj(o) => forall k | k in o :: DoublesSurvive(strtod, number, o[k])
    case _ => true
  }

  /** For `operator==` nothing has changed exactly if no double has: integers and everything else are kept. */
  lemma {:induction false} CanonIsEqual(strtod: string -> Double, number: Double -> string, j: Json)
    ensures Eq(Canon(strtod, number, j), j) <==> DoublesSurvive(strtod, number, j)
  {
    hide NumberValue;
    match j
    case Arr(a) =>
      forall i | 0 <= i < |a|
        ensures Eq(Canon(strtod, number, a[i]), a[i]) <==> DoublesSurvive(strtod, number, a[i])
      {
        CanonIsEqual(strtod, number, a[i]);
      }
    case Obj(o) =>
      assert (map k | k in o :: Canon(strtod, number, o[k])).Keys == o.Keys;
      forall k | k in o
        ensures Eq(Canon(strtod, number, o[k]), o[k]) <==> DoublesSurvive(strtod, number, o[k])
      {
        CanonIsEqual(strtod, number, o[k]);
      }
    case _ =>
  }

  lemma QuotedValue(s: string)
    ensures StringValue(Quoted(s)) == Ok(s)
  {
    hide Decoded, WellEscaped, Escaped;
    DecodeEscaped(s);
    assert Body(Quoted(s)) == Escaped(s);
  }

  lemma {:induction false} MeaningOfSyntax(strtod: string -> Double, number: Double -> string, j: Json)
    ensures Meaning(strtod, SyntaxOf(number, j)) == Ok(Canon(strtod, number, j))
    decreases j, 1, 0
  {
    hide Quoted, StringValue, IntText, NumberOf, SyntaxOf, Meaning;
    match j {
      case Arr(a) =>
        MeaningOfWholeArray(strtod, number, j);
      case Obj(o) =>
        MeaningOfAllMembers(strtod, number, j);
        MeaningOfBraces(strtod, number, j);
      case _ =>
        MeaningOfLeaf(strtod, number, j);
    }
  }

  lemma MeaningOfLeaf(strtod: string -> Double, number: Double -> string, j: Json)
    requires j.Primitive?()
    ensures Meaning(strtod, SyntaxOf(number, j)) == Ok(Canon(strtod, number, j))
  {
    hide Quoted, StringValue, IntText, NumberOf;
    match j
    case Str(s) => QuotedValue(s);
    case Int(i) => IntTextIsExact(i);
    case Uint(u) => IntTextIsExact(u);
    case _ =>
  }

  lemma {:induction false} MeaningOfWholeArray(strtod: string -> Double, number: Double -> string, j: Json)
    requires j.Arr?
    ensures Meaning(strtod, SyntaxOf(number, j)) == Ok(Canon(strtod, number, j))
    decreases j, 0, |j.a| + 1
  {
    hide MeaningOfElements, SyntaxOfElements;
    MeaningOfArray(strtod, number, j, 0, []);
    assert [] + Canon(strtod, number, j).a[0..] == Canon(strtod, number, j).a;
  }

  lemma MeaningOfBraces(strtod: string -> Double, number: Double -> string, j: Json)
    requires j.Obj?
    requires MeaningOfMembers(strtod, SyntaxOfMembers(number, j, SortedKeys(j.o.Keys)), map[])
      == Ok(Canon(strtod, number, j).o)
    ensures Meaning(strtod, SyntaxOf(number, j)) == Ok(Canon(strtod, number, j))
  {
    hide MeaningOfMembers, SyntaxOfMembers, SortedKeys, Sorted;
  }

  lemma {:induction false} MeaningOfAllMembers(strtod: string -> Double, number: Double -> string, j: Json)
    requires j.Obj?
    ensures MeaningOfMembers(strtod, SyntaxOfMembers(number, j, SortedKeys(j.o.Keys)), map[])
      == Ok(Canon(strtod, number, j).o)
    decreases j, 0, |SortedKeys(j.o.Keys)| + 1
  {
    hide MeaningOfMembers, SyntaxOfMembers, SortedKeys, Sorted;
    var ks := SortedKeys(j.o.Keys);
    MeaningOfObject(strtod, number, j, ks, map[]);
    var r := MeaningOfMembers(strtod, SyntaxOfMembers(number, j, ks), map[]).value;
    assert forall k :: k in r <==> k in j.o;
    assert r == Canon(strtod, number, j).o;
  }

  lemma {:induction false} MeaningOfArray(strtod: string -> Double, number: Double -> string, j: Json, n: nat,
                                          a: seq<Json>)
    requires j.Arr? && n <= |j.a|
    ensures var r := MeaningOfElements(strtod, SyntaxOfElements(number, j, n), a);
      r.Ok? && r.value == a + Canon(strtod, number, j).a[n..]
    decreases j, 0, |j.a| - n
  {
    hide Meaning, SyntaxOf;
    var es := SyntaxOfElements(number, j, n);
    if n < |j.a| {
      MeaningOfSyntax(strtod, number, j.a[n]);
      var v := Canon(strtod, number, j.a[n]);
      MeaningOfArray(strtod, number, j, n + 1, a + [v]);
      assert es[1..] == SyntaxOfElements(number, j, n + 1);
      assert a + [v] + Canon(strtod, number, j).a[n + 1..] == a + Canon(strtod, number, j).a[n..];
    }
  }

  lemma {:induction false} MeaningOfObject(strtod: string -> Double, number: Double -> string, j: Json,
                                           ks: seq<string>, o: map<string, Json>)
    requires j.Obj? && forall k | k in ks :: k in j.o
    ensures var r := MeaningOfMembers(strtod, SyntaxOfMembers(number, j, ks), o);
      && r.Ok?
      && (forall k :: k in r.value <==> k in ks || k in o)
      && forall k | k in r.value :: r.value[k] == if k in ks then Canon(strtod, number, j.o[k]) else o[k]
    decreases j, 0, |ks|
  {
    hide Meaning, SyntaxOf, StringValue, Quoted, Canon;
    var ms := SyntaxOfMembers(number, j, ks);
    if ks != [] {
      var k := ks[0];
      QuotedValue(k);
      MeaningOfSyntax(strtod, number, j.o[k]);
      MeaningOfObject(strtod, number, j, ks[1..], o[k := Canon(strtod, number, j.o[k])]);
      assert ms[1..] == SyntaxOfMembers(number, j, ks[1..]);
      assert forall x :: x in ks <==> x == k || x in ks[1..];
    }
  }

  lemma NothingLeft()
    ensures Stream("") == Mark(EndOfInput)
  {
  }

  /** For every value and every indent, parsing the printed text throws unless all strings are well-formed UTF-8
      and all numbers finite, and gives back a value equal to the printed one exactly if every double survives. */
  lemma ParseDump(strtod: string -> Double, number: Double -> string, j: Json, indent: int)
    requires PrintsDoubles(number)
    ensures ParseText(strtod, DumpText(number, j, indent))
      == if Readable(j) then Ok(Canon(strtod, number, j)) else Err(InvalidArgument)
    ensures Eq(Canon(strtod, number, j), j) <==> DoublesSurvive(strtod, number, j)
  {
    hide PrintsDoubles;
    CanonIsEqual(strtod, number, j);
    var text := DumpText(number, j, indent);
    var l := if indent >= 0 then Layout(true, indent % UINT_RANGE, 0) else Layout(false, 0, 0);
    ReadsDump(number, j, l, "");
    assert text + "" == text;
    NothingLeft();
    MeaningOfSyntax(strtod, number, j);
    var c := SyntaxOf(number, j);
    if Readable(j) {
      assert WrittenAs(text, c);
      ParseTextExactly(strtod, text, Canon(strtod, number, j));
    } else {
      BrokenText(strtod, text);
    }
  }

  /** A text with an error in it is rejected. */
  lemma BrokenText(strtod: string -> Double, text: string)
    requires Broken(Stream(text))
    ensures ParseText(strtod, text) == Err(InvalidArgument)
  {
    hide Stream, Flat, ParseValue;
    StreamIsScanned(text);
    ParseErrors(strtod, Stream(text));
    var r := ParseText(strtod, text);
    if r.Ok? {
      ParseTextExactly(strtod, text, r.value);
    }
  }

  /** The same with the scanner and the parser run on the printed text. */
  method DumpThenParse(strtod: string -> Double, number: Double -> string, j: Json, indent: int)
    returns (r: Result<Json>)
    requires PrintsDoubles(number)
    ensures r.Ok? <==> Readable(j)
    ensures r.Ok? ==> r.value == Canon(strtod, number, j)
    ensures r.Ok? ==> (Eq(r.value, j) <==> DoublesSurvive(strtod, number, j))
    ensures r.Err? ==> r.error == InvalidArgument
  {
    ParseDump(strtod, number, j, indent);
    var parser := new Parser(DumpText(number, j, indent), strtod);
    r := parser.Parse();
  }

  // ----- the compact form -----

  /** How a token is written. */
  function TokenText(t: Token): string {
    match t.kind
    case LiteralNull => "null"
    case LiteralTrue => "true"
    case LiteralFalse => "false"
    case ValueString | ValueNumber => t.lexeme
    case _ => Structural(t.kind)
  }

  function TextOf(ts: seq<Token>): string {
    if ts == [] then "" else TokenText(ts[0]) + TextOf(ts[1..])
  }

  lemma {:induction false} TextOfBoth(a: seq<Token>, b: seq<Token>)
    ensures TextOf(a + b) == TextOf(a) + TextOf(b)
  {
    hide TokenText;
    if a == [] {
      assert a + b == b && "" + TextOf(b) == TextOf(b);
    } else {
      TextOfBoth(a[1..], b);
      var ts, x := a + b, TokenText(a[0]);
      assert ts[0] == a[0] && ts[1..] == a[1..] + b;
      assert TextOf(ts) == x + TextOf(ts[1..]);
      assert x + (TextOf(a[1..]) + TextOf(b)) == x + TextOf(a[1..]) + TextOf(b);
    }
  }

  lemma TextOfThree(a: seq<Token>, b: seq<Token>, c: seq<Token>)
    ensures TextOf(a + b + c) == TextOf(a) + TextOf(b) + TextOf(c)
  {
    TextOfBoth(a + b, c);
    TextOfBoth(a, b);
  }

  lemma TextOfMark(kind: TokenType)
    ensures TextOf(Mark(kind)) == TokenText(Token(kind, ""))
  {
    assert Mark(kind)[1..] == [];
  }

  /** Without pretty-printing a value is printed as its tokens and nothing else, floating-point numbers
      included. */
  lemma {:induction false} CompactIsTokens(number: Double -> string, j: Json, l: Layout)
    requires !l.pretty && l.current == 0
    ensures Dump(number, j, l) == TextOf(Flat(SyntaxOf(number, j)))
    decreases j, 2, 0
  {
    hide TextOf, Quoted, IntText;
    match j
    case Arr(a) => CompactArray(number, j, l);
    case Obj(o) => CompactObject(number, j, l);
    case _ => CompactLeaf(number, j, l);
  }

  lemma CompactLeaf(number: Double -> string, j: Json, l: Layout)
    requires j.Primitive?()
    ensures Dump(number, j, l) == TextOf(Flat(SyntaxOf(number, j)))
  {
    hide Quoted, IntText;
    var ts := Flat(SyntaxOf(number, j));
    assert |ts| == 1 && ts[1..] == [];
    assert TokenText(ts[0]) + "" == TokenText(ts[0]);
  }

  lemma {:induction false} CompactArray(number: Double -> string, j: Json, l: Layout)
    requires j.Arr? && !l.pretty && l.current == 0
    ensures Dump(number, j, l) == TextOf(Flat(SyntaxOf(number, j)))
    decreases j, 1, 0
  {
    hide TextOf, DumpElements, SyntaxOfElements, FlatElements, Dump, SyntaxOf, Flat;
    TextOfMark(BeginArray);
    TextOfMark(EndArray);
    CompactBrackets(number, j, l);
    if j.a == [] {
      TextOfBoth(Mark(BeginArray), Mark(EndArray));
    } else {
      CompactElements(number, j, 0, l);
      TextOfThree(Mark(BeginArray), FlatElements(SyntaxOfElements(number, j, 0)), Mark(EndArray));
    }
  }

  lemma CompactBrackets(number: Double -> string, j: Json, l: Layout)
    requires j.Arr? && !l.pretty && l.current == 0
    ensures Dump(number, j, l) == if j.a == [] then "[]" else "[" + DumpElements(number, j, 0, l) + "]"
    ensures Flat(SyntaxOf(number, j)) ==
      if j.a == [] then Mark(BeginArray) + Mark(EndArray)
      else Mark(BeginArray) + FlatElements(SyntaxOfElements(number, j, 0)) + Mark(EndArray)
  {
    hide DumpElements, FlatElements, SyntaxOfElements;
  }

  lemma {:induction false} CompactElements(number: Double -> string, j: Json, n: nat, l: Layout)
    requires j.Arr? && !l.pretty && l.current == 0 && n < |j.a|
    ensures DumpElements(number, j, n, l) == TextOf(FlatElements(SyntaxOfElements(number, j, n)))
    decreases j, 0, |j.a| - n
  {
    hide TextOf, Dump, SyntaxOf, Flat;
    CompactIsTokens(number, j.a[n], l);
    var es := SyntaxOfElements(number, j, n);
    assert es[1..] == SyntaxOfElements(number, j, n + 1);
    if n + 1 < |j.a| {
      CompactElements(number, j, n + 1, l);
      TextOfMark(ValueSeparator);
      TextOfThree(Flat(es[0]), Mark(ValueSeparator), FlatElements(es[1..]));
    }
  }

  lemma {:induction false} CompactObject(number: Double -> string, j: Json, l: Layout)
    requires j.Obj? && !l.pretty && l.current == 0
    ensures Dump(number, j, l) == TextOf(Flat(SyntaxOf(number, j)))
    decreases j, 1, 0
  {
    hide TextOf, SortedKeys, Sorted, DumpMembers, SyntaxOfMembers, FlatMembers, Dump, SyntaxOf, Flat;
    TextOfMark(BeginObject);
    TextOfMark(EndObject);
    var ks := SortedKeys(j.o.Keys);
    if j.o == map[] {
      SyntaxOfEmptyObject(number);
      TextOfBoth(Mark(BeginObject), Mark(EndObject));
      assert j == Obj(map[]);
      DumpOfEmptyObject(number, l);
    } else {
      assert ks != [] by { var k :| k in j.o; assert k in ks; }
      CompactMembers(number, j, ks, l);
      CompactBraces(number, j, ks, l);
      TextOfThree(Mark(BeginObject), FlatMembers(SyntaxOfMembers(number, j, ks)), Mark(EndObject));
    }
  }

  lemma DumpOfEmptyObject(number: Double -> string, l: Layout)
    ensures Dump(number, Obj(map[]), l) == "{}"
  {
  }

  lemma CompactBraces(number: Double -> string, j: Json, ks: seq<string>, l: Layout)
    requires j.Obj? && j.o != map[] && !l.pretty && l.current == 0 && ks == SortedKeys(j.o.Keys) && ks != []
    ensures Dump(number, j, l) == "{" + DumpMembers(number, j, ks, l) + "}"
    ensures Flat(SyntaxOf(number, j))
      == Mark(BeginObject) + FlatMembers(SyntaxOfMembers(number, j, ks)) + Mark(EndObject)
  {
    hide SortedKeys, Sorted, DumpMembers, SyntaxOfMembers, FlatMembers;
  }

  lemma {:induction false} CompactMembers(number: Double -> string, j: Json, ks: seq<string>, l: Layout)
    requires j.Obj? && !l.pretty && l.current == 0 && ks != [] && forall k | k in ks :: k in j.o
    ensures DumpMembers(number, j, ks, l) == TextOf(FlatMembers(SyntaxOfMembers(number, j, ks)))
    decreases j, 0, |ks|
  {
    hide *;
    var k, ms := ks[0], SyntaxOfMembers(number, j, ks);
    CompactIsTokens(number, j.o[k], l);
    CompactMember(ms[0]);
    CompactMembersStep(number, j, ks, l);
    SyntaxOfMembersStep(number, j, ks);
    if |ks| > 1 {
      CompactMembers(number, j, ks[1..], l);
      TextOfMark(ValueSeparator);
      SeparatorText();
      TextOfThree(FlatMember(ms[0]), Mark(ValueSeparator), FlatMembers(ms[1..]));
    }
  }

  lemma SeparatorText()
    ensures TokenText(Token(ValueSeparator, "")) == ","
  {
  }

  lemma SyntaxOfMembersStep(number: Double -> string, j: Json, ks: seq<string>)
    requires j.Obj? && ks != [] && forall k | k in ks :: k in j.o
    ensures var ms := SyntaxOfMembers(number, j, ks);
      && ms[0] == Member(Quoted(ks[0]), SyntaxOf(number, j.o[ks[0]]))
      && ms[1..] == SyntaxOfMembers(number, j, ks[1..])
      && FlatMembers(ms) ==
           if |ks| > 1 then FlatMember(ms[0]) + Mark(ValueSeparator) + FlatMembers(ms[1..]) else FlatMember(ms[0])
  {
    hide SyntaxOf, Quoted, FlatMember;
  }

  lemma CompactMembersStep(number: Double -> string, j: Json, ks: seq<string>, l: Layout)
    requires j.Obj? && !l.pretty && l.current == 0 && ks != [] && forall k | k in ks :: k in j.o
    ensures var text := Quoted(ks[0]) + ":" + Dump(number, j.o[ks[0]], l);
      DumpMembers(number, j, ks, l) == if |ks| > 1 then text + "," + DumpMembers(number, j, ks[1..], l) else text
  {
    hide Dump, Quoted;
    assert l.Indent() == "" && l.AfterColon() == "" && l.Separator() == ",";
    var more := if |ks| > 1 then DumpMembers(number, j, ks[1..], l) else "";
    Squeezed(Quoted(ks[0]), Dump(number, j.o[ks[0]], l), more);
    MembersSplit(number, j, ks, l);
    hide DumpMembers, Layout.Indent, Layout.AfterColon, Layout.Separator;
  }

  lemma MembersSplit(number: Double -> string, j: Json, ks: seq<string>, l: Layout)
    requires j.Obj? && ks != [] && forall k | k in ks :: k in j.o
    ensures var text := l.Indent() + Quoted(ks[0]) + ":" + l.AfterColon() + Dump(number, j.o[ks[0]], l);
      DumpMembers(number, j, ks, l) ==
        if |ks| > 1 then text + (l.Separator() + DumpMembers(number, j, ks[1..], l)) else text + ""
  {
    hide Dump, Quoted, Layout.Indent, Layout.AfterColon, Layout.Separator;
  }

  lemma Squeezed(q: string, v: string, more: string)
    ensures "" + q + ":" + "" + v + "" == q + ":" + v
    ensures "" + q + ":" + "" + v + ("," + more) == q + ":" + v + "," + more
  {
  }

  lemma CompactMember(m: Member)
    ensures TextOf(FlatMember(m)) == m.name + ":" + TextOf(Flat(m.value))
  {
    hide Flat;
    var name := [Token(ValueString, m.name)];
    TextOfThree(name, Mark(NameSeparator), Flat(m.value));
    TextOfMark(NameSeparator);
    assert name[1..] == [] && m.name + "" == m.name;
  }
}
