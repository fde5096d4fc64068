/** The parser: a recursive descent over the tokens of a text, without a callback. */
module JsonParser {
  import opened JsonNumber
  import opened JsonScanner
  import opened JsonString
  import opened JsonValue
  import opened Outcomes

  /** A token with its text; the text is kept only where it matters. */
  datatype Token = Token(kind: TokenType, lexeme: string)

  predicate Terminal(kind: TokenType) {
    kind == ParseError || kind == EndOfInput
  }

  function Tagged(kind: TokenType, lexeme: string): Token {
    Token(kind, if kind == ValueString || kind == ValueNumber then lexeme else "")
  }

  /** The tokens of a text up to the end of the input or the first error. */
  function Stream(s: string): seq<Token>
    decreases |s|
  {
    var t := s[BlankCount(s)..];
    var l := Lex(t);
    if Terminal(l.token) then [Tagged(l.token, "")]
    else
      LexBound(t);
      [Tagged(l.token, t[..l.length])] + Stream(t[l.length..])
  }

  // ----- values of tokens -----

  /** `get_string`, which relies on a lexeme the scanner has accepted. */
  function StringValue(lexeme: string): Result<string> {
    if |lexeme| >= 2 && WellEscaped(Body(lexeme)) then Decoded(Body(lexeme)) else Err(BrokenAssertion)
  }

  /** `get_number` with the conversion of floating-point numbers as a parameter; what is not finite
      becomes null. */
  function NumberValue(strtod: string -> Double, lexeme: string): Json {
    match if lexeme == "" then Floating else NumberOf(lexeme)
    case Unsigned(u) => Uint(u)
    case Integer(i) => Int(i)
    case Floating => if strtod(lexeme).Finite? then Float(strtod(lexeme)) else Null
  }

  // ----- the parser as a function of the tokens -----

  function Kind(ts: seq<Token>): TokenType {
    if ts == [] then EndOfInput else ts[0].kind
  }

  /** A value and the tokens after it. */
  datatype Parsed = Parsed(value: Json, rest: seq<Token>)

  /** `parse_internal`; every call consumes at least one token. */
  function ParseValue(strtod: string -> Double, ts: seq<Token>): (r: Result<Parsed>)
    ensures r.Ok? ==> |r.value.rest| < |ts|
    decreases |ts|, 0
  {
    match Kind(ts)
    case BeginObject =>
      if Kind(ts[1..]) == EndObject then Ok(Parsed(Obj(map[]), ts[2..]))
      else if Kind(ts[1..]) == ValueSeparator then Err(InvalidArgument)
      else ParseMembers(strtod, ts[1..], map[])
    case BeginArray =>
      if Kind(ts[1..]) == EndArray then Ok(Parsed(Arr([]), ts[2..]))
      else if Kind(ts[1..]) == ValueSeparator then Err(InvalidArgument)
      else ParseElements(strtod, ts[1..], [])
    case LiteralNull => Ok(Parsed(Null, ts[1..]))
    case LiteralTrue => Ok(Parsed(Bool(true), ts[1..]))
    case LiteralFalse => Ok(Parsed(Bool(false), ts[1..]))
    case ValueString =>
      var s :- StringValue(ts[0].lexeme);
      Ok(Parsed(Str(s), ts[1..]))
    case ValueNumber => Ok(Parsed(NumberValue(strtod, ts[0].lexeme), ts[1..]))
    case _ => Err(InvalidArgument)
  }

  /** The members of an object from the next name on, after those in `o`. */
  function ParseMembers(strtod: string -> Double, ts: seq<Token>, o: map<string, Json>): (r: Result<Parsed>)
    ensures r.Ok? ==> |r.value.rest| < |ts|
    decreases |ts|, 1
  {
    if Kind(ts) != ValueString then Err(InvalidArgument)
    else
      var key :- StringValue(ts[0].lexeme);
      if Kind(ts[1..]) != NameSeparator then Err(InvalidArgument)
      else
        var v :- ParseValue(strtod, ts[2..]);
        AfterMember(strtod, v.rest, o[key := v.value])
  }

  /** A comma leads to the next member, a closing brace to the end. */
  function AfterMember(strtod: string -> Double, ts: seq<Token>, o: map<string, Json>): (r: Result<Parsed>)
    ensures r.Ok? ==> |r.value.rest| < |ts|
    decreases |ts|, 0
  {
    if Kind(ts) == ValueSeparator then ParseMembers(strtod, ts[1..], o)
    else if Kind(ts) == EndObject then Ok(Parsed(Obj(o), ts[1..]))
    else Err(InvalidArgument)
  }

  /** The elements of an array from the next one on, after those in `a`. */
  function ParseElements(strtod: string -> Double, ts: seq<Token>, a: seq<Json>): (r: Result<Parsed>)
    ensures r.Ok? ==> |r.value.rest| < |ts|
    decreases |ts|, 1
  {
    var v :- ParseValue(strtod, ts);
    AfterElement(strtod, v.rest, a + [v.value])
  }

  function AfterElement(strtod: string -> Double, ts: seq<Token>, a: seq<Json>): (r: Result<Parsed>)
    ensures r.Ok? ==> |r.value.rest| < |ts|
    decreases |ts|, 0
  {
    if Kind(ts) == ValueSeparator then ParseElements(strtod, ts[1..], a)
    else if Kind(ts) == EndArray then Ok(Parsed(Arr(a), ts[1..]))
    else Err(InvalidArgument)
  }

  /** `parse`: one value, then the end of the input. */
  function ParseText(strtod: string -> Double, s: string): Result<Json> {
    var p :- ParseValue(strtod, Stream(s));
    if Kind(p.rest) == EndOfInput then Ok(p.value) else Err(InvalidArgument)
  }

  // ----- the grammar -----

  /** A JSON value as it is written (section 2 of RFC 7159). */
  datatype Syntax =
    | NullWord
    | TrueWord
    | FalseWord
    | StringText(lexeme: string)
    | NumberText(lexeme: string)
    | ArrayText(elements: seq<Syntax>)
    | ObjectText(members: seq<Member>)

  datatype Member = Member(name: string, value: Syntax)

  function Mark(kind: TokenType): seq<Token> {
    [Token(kind, "")]
  }

  /** The tokens a value is written with. */
  function Flat(c: Syntax): (ts: seq<Token>)
    ensures ts != [] && !Terminal(ts[0].kind)
    ensures ts[0].kind !in {ValueSeparator, EndArray, EndObject}
    decreases c, 0
  {
    match c
    case NullWord => Mark(LiteralNull)
    case TrueWord => Mark(LiteralTrue)
    case FalseWord => Mark(LiteralFalse)
    case StringText(lexeme) => [Token(ValueString, lexeme)]
    case NumberText(lexeme) => [Token(ValueNumber, lexeme)]
    case ArrayText(es) => Mark(BeginArray) + (if es == [] then [] else FlatElements(es)) + Mark(EndArray)
    case ObjectText(ms) => Mark(BeginObject) + (if ms == [] then [] else FlatMembers(ms)) + Mark(EndObject)
  }

  function FlatElements(es: seq<Syntax>): (ts: seq<Token>)
    requires es != []
    ensures ts != [] && ts[0].kind !in {ValueSeparator, EndArray}
    decreases es, 1
  {
    if |es| == 1 then Flat(es[0]) else Flat(es[0]) + Mark(ValueSeparator) + FlatElements(es[1..])
  }

  function FlatMember(m: Member): (ts: seq<Token>)
    decreases m, 1
  {
    [Token(ValueString, m.name)] + Mark(NameSeparator) + Flat(m.value)
  }

  function FlatMembers(ms: seq<Member>): (ts: seq<Token>)
    requires ms != []
    ensures ts != [] && ts[0].kind == ValueString
    decreases ms, 1
  {
    if |ms| == 1 then FlatMember(ms[0]) else FlatMember(ms[0]) + Mark(ValueSeparator) + FlatMembers(ms[1..])
  }

  /** What a written value means; of several members with the same name the last one counts. */
  function Meaning(strtod: string -> Double, c: Syntax): Result<Json>
    decreases c, 0
  {
    match c
    case NullWord => Ok(Null)
    case TrueWord => Ok(Bool(true))
    case FalseWord => Ok(Bool(false))
    case StringText(lexeme) =>
      var s :- StringValue(lexeme);
      Ok(Str(s))
    case NumberText(lexeme) => Ok(NumberValue(strtod, lexeme))
    case ArrayText(es) =>
      var a :- MeaningOfElements(strtod, es, []);
      Ok(Arr(a))
    case ObjectText(ms) =>
      var o :- MeaningOfMembers(strtod, ms, map[]);
      Ok(Obj(o))
  }

  function MeaningOfElements(strtod: string -> Double, es: seq<Syntax>, a: seq<Json>): Result<seq<Json>>
    decreases es, 1
  {
    if es == [] then Ok(a)
    else
      var v :- Meaning(strtod, es[0]);
      MeaningOfElements(strtod, es[1..], a + [v])
  }

  function MeaningOfMembers(strtod: string -> Double, ms: seq<Member>, o: map<string, Json>): Result<map<string, Json>>
    decreases ms, 1
  {
    if ms == [] then Ok(o)
    else
      var key :- StringValue(ms[0].name);
      assert ms[0].value < ms[0];
      var v :- Meaning(strtod, ms[0].value);
      MeaningOfMembers(strtod, ms[1..], o[key := v])
  }

  /** The parser's answer for something that is written properly. */
  function Answer(meaning: Result<Json>, rest: seq<Token>): Result<Parsed> {
    if meaning.Ok? then Ok(Parsed(meaning.value, rest)) else Err(meaning.error)
  }

  // ----- everything in the grammar is accepted -----

  function AnswerElements(meaning: Result<seq<Json>>, rest: seq<Token>): Result<Parsed> {
    if meaning.Ok? then Ok(Parsed(Arr(meaning.value), rest)) else Err(meaning.error)
  }

  function AnswerMembers(meaning: Result<map<string, Json>>, rest: seq<Token>): Result<Parsed> {
    if meaning.Ok? then Ok(Parsed(Obj(meaning.value), rest)) else Err(meaning.error)
  }

  /** The parser reads a properly written value, whatever follows, and gives it its meaning. */
  lemma {:induction false} ParseFlat(strtod: string -> Double, c: Syntax, rest: seq<Token>)
    ensures ParseValue(strtod, Flat(c) + rest) == Answer(Meaning(strtod, c), rest)
    decreases c, 0
  {
    hide FlatElements, FlatMembers, ParseElements, ParseMembers, MeaningOfElements, MeaningOfMembers;
    var ts := Flat(c) + rest;
    match c
    case ArrayText(es) =>
      if es == [] {
        assert ts[1].kind == EndArray && ts[2..] == rest;
        MeaningOfNothing(strtod);
      } else {
        assert ts[1..] == FlatElements(es) + Mark(EndArray) + rest;
        ParseFlatElements(strtod, es, [], rest);
      }
    case ObjectText(ms) =>
      if ms == [] {
        assert ts[1].kind == EndObject && ts[2..] == rest;
        MeaningOfNothing(strtod);
      } else {
        assert ts[1..] == FlatMembers(ms) + Mark(EndObject) + rest;
        ParseFlatMembers(strtod, ms, map[], rest);
      }
    case _ =>
      assert ts[1..] == rest;
  }

  lemma MeaningOfNothing(strtod: string -> Double)
    ensures MeaningOfElements(strtod, [], []) == Ok([]) && MeaningOfMembers(strtod, [], map[]) == Ok(map[])
  {
  }

  lemma {:induction false} ParseFlatElements(strtod: string -> Double, es: seq<Syntax>, a: seq<Json>, rest: seq<Token>)
    requires es != []
    ensures ParseElements(strtod, FlatElements(es) + Mark(EndArray) + rest, a)
      == AnswerElements(MeaningOfElements(strtod, es, a), rest)
    decreases es, 1
  {
    hide Flat, ParseValue, Meaning;
    var ts := FlatElements(es) + Mark(EndArray) + rest;
    var more := if |es| == 1 then Mark(EndArray) + rest
      else Mark(ValueSeparator) + (FlatElements(es[1..]) + Mark(EndArray) + rest);
    assert ts == Flat(es[0]) + more;
    ParseFlat(strtod, es[0], more);
    var v := Meaning(strtod, es[0]);
    if v.Ok? {
      if |es| == 1 {
        assert more[1..] == rest && es[1..] == [];
      } else {
        assert more[1..] == FlatElements(es[1..]) + Mark(EndArray) + rest;
        ParseFlatElements(strtod, es[1..], a + [v.value], rest);
      }
    }
  }

  lemma {:induction false} ParseFlatMembers(strtod: string -> Double, ms: seq<Member>, o: map<string, Json>,
                                            rest: seq<Token>)
    requires ms != []
    ensures ParseMembers(strtod, FlatMembers(ms) + Mark(EndObject) + rest, o)
      == AnswerMembers(MeaningOfMembers(strtod, ms, o), rest)
    decreases ms, 1
  {
    hide Flat, ParseValue, Meaning, StringValue;
    var ts := FlatMembers(ms) + Mark(EndObject) + rest;
    var m := ms[0];
    assert m.value < m;
    var more := if |ms| == 1 then Mark(EndObject) + rest
      else Mark(ValueSeparator) + (FlatMembers(ms[1..]) + Mark(EndObject) + rest);
    assert ts == FlatMember(m) + more;
    assert ts[0] == Token(ValueString, m.name) && ts[1].kind == NameSeparator;
    assert ts[2..] == Flat(m.value) + more;
    ParseFlat(strtod, m.value, more);
    var key, v := StringValue(m.name), Meaning(strtod, m.value);
    if key.Ok? && v.Ok? {
      if |ms| == 1 {
        assert more[1..] == rest && ms[1..] == [];
      } else {
        assert more[1..] == FlatMembers(ms[1..]) + Mark(EndObject) + rest;
        ParseFlatMembers(strtod, ms[1..], o[key.value := v.value], rest);
      }
    }
  }

  // ----- nothing else is accepted -----

  /** Only strings and numbers keep their text. */
  predicate Plain(ts: seq<Token>) {
    forall i | 0 <= i < |ts| :: ts[i] == Tagged(ts[i].kind, ts[i].lexeme)
  }

  lemma PlainHead(ts: seq<Token>)
    requires Plain(ts) && ts != [] && ts[0].kind != ValueString && ts[0].kind != ValueNumber
    ensures ts == Mark(ts[0].kind) + ts[1..] && Plain(ts[1..])
  {
  }

  /** Whatever the parser accepts is properly written, and the answer is its meaning. */
  lemma {:induction false} Recognised(strtod: string -> Double, ts: seq<Token>) returns (c: Syntax)
    requires Plain(ts) && ParseValue(strtod, ts).Ok?
    ensures var p := ParseValue(strtod, ts).value;
      ts == Flat(c) + p.rest && Meaning(strtod, c) == Ok(p.value) && Plain(p.rest)
    decreases |ts|, 2
  {
    hide ParseValue, Flat, Meaning, Plain;
    match ts[0].kind
    case BeginArray => c := RecognisedArray(strtod, ts);
    case BeginObject => c := RecognisedObject(strtod, ts);
    case _ => c := RecognisedLeaf(strtod, ts);
  }

  lemma {:induction false} RecognisedLeaf(strtod: string -> Double, ts: seq<Token>) returns (c: Syntax)
    requires Plain(ts) && ParseValue(strtod, ts).Ok? && ts[0].kind !in {BeginArray, BeginObject}
    ensures var p := ParseValue(strtod, ts).value;
      ts == Flat(c) + p.rest && Meaning(strtod, c) == Ok(p.value) && Plain(p.rest)
  {
    hide NumberValue, StringValue;
    var t := ts[0];
    c := match t.kind
      case LiteralNull => NullWord
      case LiteralTrue => TrueWord
      case LiteralFalse => FalseWord
      case ValueString => StringText(t.lexeme)
      case _ => NumberText(t.lexeme);
    assert ts == [t] + ts[1..];
  }

  lemma {:induction false} RecognisedArray(strtod: string -> Double, ts: seq<Token>) returns (c: Syntax)
    requires Plain(ts) && ParseValue(strtod, ts).Ok? && ts[0].kind == BeginArray
    ensures var p := ParseValue(strtod, ts).value;
      ts == Flat(c) + p.rest && Meaning(strtod, c) == Ok(p.value) && Plain(p.rest)
    decreases |ts|, 1
  {
    hide ParseValue, ParseElements, Flat, FlatElements, Meaning, MeaningOfElements, Plain;
    ArrayStart(strtod, ts);
    var u := ts[1..];
    if Kind(u) == EndArray {
      c := EmptyArray(strtod, ts);
    } else {
      var p := ParseElements(strtod, u, []).value;
      var es := RecognisedElements(strtod, u, []);
      c := ArrayText(es);
      ArrayTextOf(strtod, es, p.value.a);
      assert Flat(c) + p.rest == Mark(BeginArray) + u;
    }
  }

  lemma ArrayStart(strtod: string -> Double, ts: seq<Token>)
    requires Plain(ts) && ParseValue(strtod, ts).Ok? && ts[0].kind == BeginArray
    ensures ts == Mark(BeginArray) + ts[1..] && Plain(ts[1..])
    ensures Kind(ts[1..]) != EndArray ==> ParseValue(strtod, ts) == ParseElements(strtod, ts[1..], [])
  {
    hide ParseElements;
  }

  lemma EmptyArray(strtod: string -> Double, ts: seq<Token>) returns (c: Syntax)
    requires Plain(ts) && Kind(ts) == BeginArray && Kind(ts[1..]) == EndArray && ParseValue(strtod, ts).Ok?
    ensures var p := ParseValue(strtod, ts).value;
      ts == Flat(c) + p.rest && Meaning(strtod, c) == Ok(p.value) && Plain(p.rest)
  {
    hide Plain;
    PlainHead(ts);
    PlainHead(ts[1..]);
    assert ts[1..][1..] == ts[2..];
    c := ArrayText([]);
  }

  lemma ArrayTextOf(strtod: string -> Double, es: seq<Syntax>, a: seq<Json>)
    requires es != [] && MeaningOfElements(strtod, es, []) == Ok(a)
    ensures Meaning(strtod, ArrayText(es)) == Ok(Arr(a))
    ensures Flat(ArrayText(es)) == Mark(BeginArray) + FlatElements(es) + Mark(EndArray)
  {
  }

  lemma {:induction false} RecognisedObject(strtod: string -> Double, ts: seq<Token>) returns (c: Syntax)
    requires Plain(ts) && ParseValue(strtod, ts).Ok? && ts[0].kind == BeginObject
    ensures var p := ParseValue(strtod, ts).value;
      ts == Flat(c) + p.rest && Meaning(strtod, c) == Ok(p.value) && Plain(p.rest)
    decreases |ts|, 1
  {
    hide ParseValue, ParseMembers, Flat, FlatMembers, Meaning, MeaningOfMembers, Plain;
    ObjectStart(strtod, ts);
    var u := ts[1..];
    if Kind(u) == EndObject {
      c := EmptyObject(strtod, ts);
    } else {
      var p := ParseMembers(strtod, u, map[]).value;
      var ms := RecognisedMembers(strtod, u, map[]);
      c := ObjectText(ms);
      ObjectTextOf(strtod, ms, p.value.o);
      assert Flat(c) + p.rest == Mark(BeginObject) + u;
    }
  }

  lemma ObjectStart(strtod: string -> Double, ts: seq<Token>)
    requires Plain(ts) && ParseValue(strtod, ts).Ok? && ts[0].kind == BeginObject
    ensures ts == Mark(BeginObject) + ts[1..] && Plain(ts[1..])
    ensures Kind(ts[1..]) != EndObject ==> ParseValue(strtod, ts) == ParseMembers(strtod, ts[1..], map[])
  {
    hide ParseMembers;
  }

  lemma EmptyObject(strtod: string -> Double, ts: seq<Token>) returns (c: Syntax)
    requires Plain(ts) && Kind(ts) == BeginObject && Kind(ts[1..]) == EndObject && ParseValue(strtod, ts).Ok?
    ensures var p := ParseValue(strtod, ts).value;
      ts == Flat(c) + p.rest && Meaning(strtod, c) == Ok(p.value) && Plain(p.rest)
  {
    hide Plain;
    PlainHead(ts);
    PlainHead(ts[1..]);
    assert ts[1..][1..] == ts[2..];
    c := ObjectText([]);
  }

  lemma ObjectTextOf(strtod: string -> Double, ms: seq<Member>, o: map<string, Json>)
    requires ms != [] && MeaningOfMembers(strtod, ms, map[]) == Ok(o)
    ensures Meaning(strtod, ObjectText(ms)) == Ok(Obj(o))
    ensures Flat(ObjectText(ms)) == Mark(BeginObject) + FlatMembers(ms) + Mark(EndObject)
  {
  }

  lemma MeaningOfElementsHead(strtod: string -> Double, e: Syntax, more: seq<Syntax>, a: seq<Json>)
    requires Meaning(strtod, e).Ok?
    ensures MeaningOfElements(strtod, [e] + more, a) == MeaningOfElements(strtod, more, a + [Meaning(strtod, e).value])
    ensures FlatElements([e] + more) ==
      if more == [] then Flat(e) else Flat(e) + Mark(ValueSeparator) + FlatElements(more)
  {
    hide Meaning, Flat;
    var es := [e] + more;
    assert es[1..] == more;
  }

  lemma ParseElementsHead(strtod: string -> Double, ts: seq<Token>, a: seq<Json>)
    requires ParseElements(strtod, ts, a).Ok?
    ensures ParseValue(strtod, ts).Ok?
    ensures var v := ParseValue(strtod, ts).value;
      ParseElements(strtod, ts, a) == AfterElement(strtod, v.rest, a + [v.value]) && |v.rest| < |ts|
  {
    hide ParseValue;
  }

  /** The same for the elements of an array: those from the next one on. */
  lemma {:induction false} RecognisedElements(strtod: string -> Double, ts: seq<Token>, a: seq<Json>)
    returns (es: seq<Syntax>)
    requires Plain(ts) && ParseElements(strtod, ts, a).Ok?
    ensures var p := ParseElements(strtod, ts, a).value;
      && es != [] && ts == FlatElements(es) + Mark(EndArray) + p.rest && p.value.Arr? && Plain(p.rest)
      && MeaningOfElements(strtod, es, a) == Ok(p.value.a)
    decreases |ts|, 3
  {
    hide *;
    ParseElementsHead(strtod, ts, a);
    var e := Recognised(strtod, ts);
    var v := ParseValue(strtod, ts).value;
    var a' := a + [v.value];
    var more := RecognisedMore(strtod, v.rest, a');
    es := [e] + more;
    MeaningOfElementsHead(strtod, e, more, a);
    var p := AfterElement(strtod, v.rest, a').value;
    if more == [] {
      assert ts == Flat(e) + (Mark(EndArray) + p.rest);
    } else {
      assert ts == Flat(e) + (Mark(ValueSeparator) + FlatElements(more) + Mark(EndArray) + p.rest);
    }
  }

  lemma {:induction false} RecognisedMore(strtod: string -> Double, ts: seq<Token>, a: seq<Json>)
    returns (more: seq<Syntax>)
    requires Plain(ts) && AfterElement(strtod, ts, a).Ok?
    ensures var p := AfterElement(strtod, ts, a).value;
      && p.value.Arr? && Plain(p.rest) && MeaningOfElements(strtod, more, a) == Ok(p.value.a)
      && ts == (if more == [] then [] else Mark(ValueSeparator) + FlatElements(more)) + Mark(EndArray) + p.rest
    decreases |ts|, 0
  {
    hide Plain, ParseElements;
    PlainHead(ts);
    if Kind(ts) == ValueSeparator {
      more := RecognisedElements(strtod, ts[1..], a);
    } else {
      more := [];
    }
  }

  lemma ParseMembersHead(strtod: string -> Double, ts: seq<Token>, o: map<string, Json>)
    requires Plain(ts) && ParseMembers(strtod, ts, o).Ok?
    ensures |ts| >= 2 && Plain(ts[2..])
    ensures StringValue(ts[0].lexeme).Ok? && ParseValue(strtod, ts[2..]).Ok?
    ensures ts == [Token(ValueString, ts[0].lexeme)] + Mark(NameSeparator) + ts[2..]
    ensures var v := ParseValue(strtod, ts[2..]).value;
      var o' := o[StringValue(ts[0].lexeme).value := v.value];
      ParseMembers(strtod, ts, o) == AfterMember(strtod, v.rest, o') && |v.rest| < |ts|
  {
    hide ParseValue, StringValue;
    PlainHead(ts[1..]);
    assert ts[2..] == ts[1..][1..];
  }

  lemma MeaningOfMembersHead(strtod: string -> Double, m: Member, more: seq<Member>, o: map<string, Json>)
    requires StringValue(m.name).Ok? && Meaning(strtod, m.value).Ok?
    ensures MeaningOfMembers(strtod, [m] + more, o)
      == MeaningOfMembers(strtod, more, o[StringValue(m.name).value := Meaning(strtod, m.value).value])
    ensures FlatMembers([m] + more) ==
      if more == [] then FlatMember(m) else FlatMember(m) + Mark(ValueSeparator) + FlatMembers(more)
  {
    hide Meaning, StringValue, FlatMember;
    var ms := [m] + more;
    assert ms[1..] == more;
  }

  lemma FlatMemberOf(name: string, e: Syntax, ts: seq<Token>, after: seq<Token>, rest: seq<Token>)
    requires ts == [Token(ValueString, name)] + Mark(NameSeparator) + after && after == Flat(e) + rest
    ensures ts == FlatMember(Member(name, e)) + rest
  {
    hide Flat;
  }

  /** The same for the members of an object: those from the next name on. */
  lemma {:induction false} RecognisedMembers(strtod: string -> Double, ts: seq<Token>, o: map<string, Json>)
    returns (ms: seq<Member>)
    requires Plain(ts) && ParseMembers(strtod, ts, o).Ok?
    ensures var p := ParseMembers(strtod, ts, o).value;
      && ms != [] && ts == FlatMembers(ms) + Mark(EndObject) + p.rest && p.value.Obj? && Plain(p.rest)
      && MeaningOfMembers(strtod, ms, o) == Ok(p.value.o)
    decreases |ts|, 3
  {
    hide *;
    ParseMembersHead(strtod, ts, o);
    var e := Recognised(strtod, ts[2..]);
    var m := Member(ts[0].lexeme, e);
    var v := ParseValue(strtod, ts[2..]).value;
    FlatMemberOf(m.name, e, ts, ts[2..], v.rest);
    var o' := o[StringValue(m.name).value := v.value];
    var more := RecognisedRest(strtod, v.rest, o');
    ms := [m] + more;
    MeaningOfMembersHead(strtod, m, more, o);
    var p := AfterMember(strtod, v.rest, o').value;
    if more == [] {
      assert ts == FlatMember(m) + (Mark(EndObject) + p.rest);
    } else {
      assert ts == FlatMember(m) + (Mark(ValueSeparator) + FlatMembers(more) + Mark(EndObject) + p.rest);
    }
  }

  lemma {:induction false} RecognisedRest(strtod: string -> Double, ts: seq<Token>, o: map<string, Json>)
    returns (more: seq<Member>)
    requires Plain(ts) && AfterMember(strtod, ts, o).Ok?
    ensures var p := AfterMember(strtod, ts, o).value;
      && p.value.Obj? && Plain(p.rest) && MeaningOfMembers(strtod, more, o) == Ok(p.value.o)
      && ts == (if more == [] then [] else Mark(ValueSeparator) + FlatMembers(more)) + Mark(EndObject) + p.rest
    decreases |ts|, 0
  {
    hide Plain, ParseMembers;
    PlainHead(ts);
    if Kind(ts) == ValueSeparator {
      more := RecognisedMembers(strtod, ts[1..], o);
    } else {
      more := [];
    }
  }

  // ----- the parser on texts -----

  /** What the scanner guarantees of a token. */
  ghost predicate Scanned(t: Token) {
    && t == Tagged(t.kind, t.lexeme)
    && (t.kind == ValueString ==> |t.lexeme| >= 2 && StringBody(Body(t.lexeme)))
    && (t.kind == ValueNumber ==> IsNumber(t.lexeme))
  }

  lemma TokenIsScanned(t: string)
    requires !Terminal(Lex(t).token)
    ensures Lex(t).length <= |t| && Scanned(Tagged(Lex(t).token, t[..Lex(t).length]))
  {
    hide IsNumber, StringBody, Lex;
    LexBound(t);
    var l := Lex(t);
    var lexeme := t[..l.length];
    if l.token == ValueString {
      StringTokens(t, l.length);
      assert Body(lexeme) == t[1..l.length - 1];
    } else if l.token == ValueNumber {
      NumberTokensOnly(t);
    }
  }

  /** Every token of a text is as scanned, and exactly the last one ends it. */
  lemma {:induction false} StreamIsScanned(s: string)
    ensures var ts := Stream(s); ts != [] && forall i | 0 <= i < |ts| ::
      Scanned(ts[i]) && (Terminal(ts[i].kind) <==> i == |ts| - 1)
    decreases |s|
  {
    hide Lex, Scanned;
    var t := s[BlankCount(s)..];
    var l := Lex(t);
    if Terminal(l.token) {
      assert Scanned(Tagged(l.token, "")) by { TerminalIsScanned(l.token); }
    } else {
      TokenIsScanned(t);
      LexBound(t);
      StreamIsScanned(t[l.length..]);
    }
  }

  lemma TerminalIsScanned(kind: TokenType)
    requires Terminal(kind)
    ensures Scanned(Tagged(kind, ""))
  {
  }

  predicate NoTerminal(ts: seq<Token>) {
    forall i | 0 <= i < |ts| :: !Terminal(ts[i].kind)
  }

  /** No value is written with an error or the end of the input. */
  lemma {:induction false} FlatHasNoTerminal(c: Syntax)
    ensures NoTerminal(Flat(c))
    decreases c, 0
  {
    match c
    case ArrayText(es) => if es != [] { ElementsHaveNoTerminal(es); }
    case ObjectText(ms) => if ms != [] { MembersHaveNoTerminal(ms); }
    case _ =>
  }

  lemma {:induction false} ElementsHaveNoTerminal(es: seq<Syntax>)
    requires es != []
    ensures NoTerminal(FlatElements(es))
    decreases es, 1
  {
    FlatHasNoTerminal(es[0]);
    if |es| > 1 { ElementsHaveNoTerminal(es[1..]); }
  }

  lemma {:induction false} MembersHaveNoTerminal(ms: seq<Member>)
    requires ms != []
    ensures NoTerminal(FlatMembers(ms))
    decreases ms, 1
  {
    assert ms[0].value < ms[0];
    FlatHasNoTerminal(ms[0].value);
    if |ms| > 1 { MembersHaveNoTerminal(ms[1..]); }
  }

  /** A text is written as this value. */
  ghost predicate WrittenAs(s: string, c: Syntax) {
    Stream(s) == Flat(c) + Mark(EndOfInput)
  }

  /** `parse` accepts exactly the texts of the grammar whose strings decode, and returns their meaning. */
  lemma ParseTextExactly(strtod: string -> Double, s: string, j: Json)
    ensures ParseText(strtod, s) == Ok(j) <==> exists c :: WrittenAs(s, c) && Meaning(strtod, c) == Ok(j)
  {
    hide ParseValue, Meaning, Flat, Stream;
    StreamIsScanned(s);
    var ts := Stream(s);
    if ParseText(strtod, s) == Ok(j) {
      assert Plain(ts);
      var c := Recognised(strtod, ts);
      var rest := ParseValue(strtod, ts).value.rest;
      FlatHasNoTerminal(c);
      assert Terminal(ts[|ts| - 1].kind);
      assert rest == [] ==> ts == Flat(c);
      assert ts[|Flat(c)|] == rest[0];
      assert rest == Mark(EndOfInput);
      assert WrittenAs(s, c);
    }
    forall c | WrittenAs(s, c) && Meaning(strtod, c) == Ok(j) ensures ParseText(strtod, s) == Ok(j) {
      ParseFlat(strtod, c, Mark(EndOfInput));
    }
  }

  ghost predicate AllScanned(ts: seq<Token>) {
    forall i | 0 <= i < |ts| :: Scanned(ts[i])
  }

  lemma StringErrors(t: Token)
    requires Scanned(t) && t.kind == ValueString
    ensures StringValue(t.lexeme).Err? ==> StringValue(t.lexeme).error == InvalidArgument
  {
    DecodedIsWellFormed(Body(t.lexeme));
  }

  /** The only exception the parser throws is `std::invalid_argument`. */
  lemma {:induction false} ParseErrors(strtod: string -> Double, ts: seq<Token>)
    requires AllScanned(ts)
    ensures var r := ParseValue(strtod, ts);
      if r.Err? then r.error == InvalidArgument else AllScanned(r.value.rest)
    decreases |ts|, 0
  {
    hide Scanned, StringValue;
    if Kind(ts) == BeginObject && Kind(ts[1..]) !in {EndObject, ValueSeparator} {
      MemberErrors(strtod, ts[1..], map[]);
    } else if Kind(ts) == BeginArray && Kind(ts[1..]) !in {EndArray, ValueSeparator} {
      ElementErrors(strtod, ts[1..], []);
    } else if Kind(ts) == ValueString {
      StringErrors(ts[0]);
    }
  }

  lemma {:induction false} MemberErrors(strtod: string -> Double, ts: seq<Token>, o: map<string, Json>)
    requires AllScanned(ts)
    ensures var r := ParseMembers(strtod, ts, o);
      if r.Err? then r.error == InvalidArgument else AllScanned(r.value.rest)
    decreases |ts|, 1
  {
    hide Scanned, StringValue, ParseValue;
    if Kind(ts) == ValueString {
      StringErrors(ts[0]);
      var key := StringValue(ts[0].lexeme);
      if key.Ok? && Kind(ts[1..]) == NameSeparator {
        ParseErrors(strtod, ts[2..]);
        var v := ParseValue(strtod, ts[2..]);
        if v.Ok? && Kind(v.value.rest) == ValueSeparator {
          MemberErrors(strtod, v.value.rest[1..], o[key.value := v.value.value]);
        }
      }
    }
  }

  lemma {:induction false} ElementErrors(strtod: string -> Double, ts: seq<Token>, a: seq<Json>)
    requires AllScanned(ts)
    ensures var r := ParseElements(strtod, ts, a);
      if r.Err? then r.error == InvalidArgument else AllScanned(r.value.rest)
    decreases |ts|, 1
  {
    hide Scanned, ParseValue;
    ParseErrors(strtod, ts);
    var v := ParseValue(strtod, ts);
    if v.Ok? && Kind(v.value.rest) == ValueSeparator {
      ElementErrors(strtod, v.value.rest[1..], a + [v.value.value]);
    }
  }

  // ----- repeated names -----

  predicate Named(m: Member, k: string) {
    StringValue(m.name) == Ok(k)
  }

  /** Of several members with the same name the object keeps the value of the last one, and it has no
      other names than those written. */
  lemma {:induction false} LastMemberWins(strtod: string -> Double, ms: seq<Member>, o: map<string, Json>, k: string)
    requires MeaningOfMembers(strtod, ms, o).Ok?
    ensures var r := MeaningOfMembers(strtod, ms, o).value;
      if exists i :: 0 <= i < |ms| && Named(ms[i], k) then
        k in r && exists i :: 0 <= i < |ms| && Named(ms[i], k) && Meaning(strtod, ms[i].value) == Ok(r[k])
                              && forall n | i < n < |ms| :: !Named(ms[n], k)
      else (k in r <==> k in o) && (k in o ==> r[k] == o[k])
    decreases |ms|
  {
    hide Meaning, StringValue;
    if ms != [] {
      var key, v := StringValue(ms[0].name).value, Meaning(strtod, ms[0].value).value;
      var more := ms[1..];
      LastMemberWins(strtod, more, o[key := v], k);
      var r := MeaningOfMembers(strtod, ms, o).value;
      if i :| 0 <= i < |more| && Named(more[i], k) {
        var last :| 0 <= last < |more| && Named(more[last], k) && Meaning(strtod, more[last].value) == Ok(r[k])
                    && forall n | last < n < |more| :: !Named(more[n], k);
        assert Named(ms[i + 1], k) && Named(ms[last + 1], k);
        forall n | last + 1 < n < |ms| ensures !Named(ms[n], k) { assert !Named(more[n - 1], k); }
      } else {
        forall n | 0 < n < |ms| ensures !Named(ms[n], k) { assert !Named(more[n - 1], k); }
        if Named(ms[0], k) { assert Meaning(strtod, ms[0].value) == Ok(r[k]); }
      }
    }
  }

  // ----- the parser as a class -----

  /** What the loop over the members still has to read; `again` tells whether it goes on. */
  ghost function Members(strtod: string -> Double, ts: seq<Token>, o: map<string, Json>, again: bool): Result<Parsed> {
    if Kind(ts) == ValueSeparator || !again then AfterMember(strtod, ts, o) else ParseMembers(strtod, ts, o)
  }

  lemma MembersStart(strtod: string -> Double, ts: seq<Token>)
    requires Kind(ts) == BeginObject
    ensures ParseValue(strtod, ts) ==
      if Kind(ts[1..]) == EndObject then Ok(Parsed(Obj(map[]), ts[1..][1..]))
      else if Kind(ts[1..]) == ValueSeparator then Err(InvalidArgument)
      else Members(strtod, ts[1..], map[], true)
  {
    hide ParseMembers;
  }

  lemma MembersEnd(strtod: string -> Double, ts: seq<Token>, o: map<string, Json>)
    requires Kind(ts) != ValueSeparator
    ensures Members(strtod, ts, o, false) ==
      if Kind(ts) == EndObject then Ok(Parsed(Obj(o), ts[1..])) else Err(InvalidArgument)
  {
  }

  /** One round of that loop on tokens `ts`, a comma in front left out. */
  lemma MembersStep(strtod: string -> Double, ts: seq<Token>, o: map<string, Json>)
    ensures Members(strtod, ts, o, true) == ParseMembers(strtod, if Kind(ts) == ValueSeparator then ts[1..] else ts, o)
    ensures Kind(ts) != ValueString ==> ParseMembers(strtod, ts, o) == Err(InvalidArgument)
    ensures Kind(ts) == ValueString ==> var key := StringValue(ts[0].lexeme);
      if key.Err? then ParseMembers(strtod, ts, o) == Err(key.error)
      else if Kind(ts[1..]) != NameSeparator then ParseMembers(strtod, ts, o) == Err(InvalidArgument)
      else
        var v := ParseValue(strtod, ts[2..]);
        if v.Err? then ParseMembers(strtod, ts, o) == Err(v.error)
        else
          var o' := o[key.value := v.value.value];
          ParseMembers(strtod, ts, o) == Members(strtod, v.value.rest, o', Kind(v.value.rest) == ValueSeparator)
  {
    hide ParseValue, StringValue;
  }

  class Parser {
    const lexer: Lexer
    const strtod: string -> Double
    var lastToken: TokenType

    constructor (text: string, strtod: string -> Double)
      ensures fresh(lexer) && lexer.content == text && lexer.cursor == 0
      ensures this.strtod == strtod && lastToken == Uninitialized
    {
      lexer := new Lexer(text);
      this.strtod := strtod;
      lastToken := Uninitialized;
    }

    /** `lastToken` is the token between the lexer's start and its cursor. */
    ghost predicate Valid()
      reads this, lexer
    {
      && lexer.start <= lexer.cursor
      && lexer.start <= |lexer.content|
      && Lexed(lastToken, lexer.cursor - lexer.start) == Lex(lexer.content[lexer.start..])
      && (!Terminal(lastToken) ==> lexer.cursor <= |lexer.content|)
    }

    /** The tokens from the last one on. */
    ghost function Pending(): (ts: seq<Token>)
      requires Valid()
      reads this, lexer
      ensures ts != [] && Kind(ts) == lastToken
    {
      if Terminal(lastToken) then [Tagged(lastToken, "")]
      else [Tagged(lastToken, lexer.TokenString())] + Stream(lexer.content[lexer.cursor..])
    }

    /** `get_token` from any position within the text. */
    method ReadToken()
      requires lexer.cursor <= |lexer.content|
      modifies this, lexer
      ensures Valid() && Pending() == Stream(lexer.content[old(lexer.cursor)..])
    {
      hide Lex, BlankCount;
      ghost var s := lexer.content[lexer.cursor..];
      lastToken := lexer.Scan();
      ghost var t := lexer.content[lexer.start..];
      assert t == s[BlankCount(s)..];
      LexBound(t);
      if !Terminal(lastToken) {
        assert t[..Lex(t).length] == lexer.TokenString();
        assert t[Lex(t).length..] == lexer.content[lexer.cursor..];
      }
    }

    /** `get_token` once a token has been dealt with; the parser never reads on after the last one. */
    method GetToken()
      requires Valid() && !Terminal(lastToken)
      modifies this, lexer
      ensures Valid() && Pending() == old(Pending())[1..]
    {
      ReadToken();
    }

    method Expect(t: TokenType) returns (r: Result<()>)
      ensures r == if t == lastToken then Ok(()) else Err(InvalidArgument)
    {
      return if t != lastToken then Err(InvalidArgument) else Ok(());
    }

    method Unexpect(t: TokenType) returns (r: Result<()>)
      ensures r == if t == lastToken then Err(InvalidArgument) else Ok(())
    {
      return if t == lastToken then Err(InvalidArgument) else Ok(());
    }

    /** `get_string` on the last token. */
    method CurrentString() returns (r: Result<string>)
      requires Valid() && lastToken == ValueString
      ensures r == StringValue(Pending()[0].lexeme)
    {
      hide Lex, StringBody, Decoded;
      ghost var t := lexer.content[lexer.start..];
      StringTokens(t, lexer.cursor - lexer.start);
      var lexeme := lexer.TokenString();
      assert lexeme == t[..|lexeme|] && Body(lexeme) == t[1..|lexeme| - 1];
      StringBodyIsWellEscaped(Body(lexeme));
      r := GetString(lexeme);
    }

    /** `get_number` on the last token. */
    method CurrentNumber() returns (j: Json)
      requires Valid() && lastToken == ValueNumber
      ensures j == NumberValue(strtod, Pending()[0].lexeme)
    {
      LexBound(lexer.content[lexer.start..]);
      hide Lex, NumberOf;
      var lexeme := lexer.TokenString();
      var n := GetNumber(lexeme);
      match n {
        case Unsigned(u) => j := Uint(u);
        case Integer(i) => j := Int(i);
        case Floating =>
          var d := strtod(lexeme);
          j := if d.Finite? then Float(d) else Null;
      }
    }

    /** The outcome of a call that started with these tokens. */
    ghost predicate Done(expected: Result<Parsed>, r: Result<Json>)
      reads this, lexer
    {
      match expected
      case Ok(p) => r == Ok(p.value) && Valid() && Pending() == p.rest
      case Err(e) => r == Err(e)
    }

    /** `parse_internal`. */
    method ParseInternal() returns (r: Result<Json>)
      requires Valid()
      modifies this, lexer
      ensures Done(ParseValue(strtod, old(Pending())), r)
      decreases |Pending()|, 1
    {
      hide Lex, Stream, ParseMembers, ParseElements, StringValue, NumberValue, Pending, Valid;
      match lastToken {
        case BeginObject =>
          r := ParseObject();
        case BeginArray =>
          r := ParseArray();
        case LiteralNull =>
          GetToken();
          r := Ok(Null);
        case ValueString =>
          var s :- CurrentString();
          GetToken();
          r := Ok(Str(s));
        case LiteralTrue =>
          GetToken();
          r := Ok(Bool(true));
        case LiteralFalse =>
          GetToken();
          r := Ok(Bool(false));
        case ValueNumber =>
          var j := CurrentNumber();
          GetToken();
          r := Ok(j);
        case _ =>
          var unexpected := Unexpect(lastToken);
          r := Err(unexpected.error);
      }
    }

    /** A name, a colon and a value; `o` are the members before it. */
    method ParseMember(ghost o: map<string, Json>) returns (r: Result<(string, Json)>)
      requires Valid()
      modifies this, lexer
      ensures var whole := ParseMembers(strtod, old(Pending()), o);
        match r
        case Ok(m) =>
          && Valid() && |Pending()| < |old(Pending())|
          && whole == Members(strtod, Pending(), o[m.0 := m.1], lastToken == ValueSeparator)
        case Err(e) => whole == Err(e)
      decreases |Pending()|, 2
    {
      hide Lex, Stream, ParseValue, ParseMembers, Members, StringValue, Pending, Valid;
      ghost var here := Pending();
      MembersStep(strtod, here, o);
      var _ :- Expect(ValueString);
      var key :- CurrentString();
      GetToken();
      var _ :- Expect(NameSeparator);
      GetToken();
      assert Pending() == here[2..];
      var value :- ParseInternal();
      return Ok((key, value));
    }

    /** The case of `{`. */
    method ParseObject() returns (r: Result<Json>)
      requires Valid() && lastToken == BeginObject
      modifies this, lexer
      ensures Done(ParseValue(strtod, old(Pending())), r)
      decreases |Pending()|, 0
    {
      hide Lex, Stream, ParseValue, ParseMembers, ParseElements, AfterMember, Members;
      hide StringValue, NumberValue, Pending, Valid;
      ghost var ts := Pending();
      ghost var whole := ParseValue(strtod, ts);
      MembersStart(strtod, ts);
      var o: map<string, Json> := map[];
      GetToken();
      if lastToken == EndObject {
        GetToken();
        return Ok(Obj(o));
      }
      var _ :- Unexpect(ValueSeparator);
      var again := true;
      while again
        invariant Valid() && |Pending()| < |ts|
        invariant whole == Members(strtod, Pending(), o, again)
        invariant !again ==> lastToken != ValueSeparator
        decreases again, |Pending()|
      {
        MembersStep(strtod, Pending(), o);
        if lastToken == ValueSeparator {
          GetToken();
        }
        var member :- ParseMember(o);
        o := o[member.0 := member.1];
        again := lastToken == ValueSeparator;
      }
      MembersEnd(strtod, Pending(), o);
      var _ :- Expect(EndObject);
      GetToken();
      return Ok(Obj(o));
    }

    /** The case of `[`. */
    method ParseArray() returns (r: Result<Json>)
      requires Valid() && lastToken == BeginArray
      modifies this, lexer
      ensures Done(ParseValue(strtod, old(Pending())), r)
      decreases |Pending()|, 0
    {
      hide Lex, Stream, ParseMembers, StringValue, NumberValue, Pending, Valid;
      ghost var ts := Pending();
      var a: seq<Json> := [];
      GetToken();
      if lastToken == EndArray {
        GetToken();
        return Ok(Arr(a));
      }
      var _ :- Unexpect(ValueSeparator);
      var again := true;
      while again
        invariant Valid() && |Pending()| < |ts|
        invariant ParseValue(strtod, ts) ==
          if lastToken == ValueSeparator || !again then AfterElement(strtod, Pending(), a)
          else ParseElements(strtod, Pending(), a)
        invariant !again ==> lastToken != ValueSeparator
        decreases again, |Pending()|
      {
        if lastToken == ValueSeparator {
          GetToken();
        }
        var value :- ParseInternal();
        a := a + [value];
        again := lastToken == ValueSeparator;
      }
      var _ :- Expect(EndArray);
      GetToken();
      return Ok(Arr(a));
    }

    /** `parse`. */
    method Parse() returns (r: Result<Json>)
      requires lexer.cursor == 0
      modifies this, lexer
      ensures r == ParseText(strtod, lexer.content)
    {
      hide Stream, ParseValue, Pending, Valid;
      assert lexer.content[0..] == lexer.content;
      ReadToken();
      var result :- ParseInternal();
      var _ :- Expect(EndOfInput);
      return Ok(result);
    }
  }
}
