/** Texts that differ only in the blanks between their tokens, and the texts of the constants. */
module JsonTextLaw {
  import opened Decimal
  import opened JsonDump
  import opened JsonNumber
  import opened JsonParser
  import opened JsonScanner
  import opened JsonString
  import opened JsonValue
  import opened Outcomes

  /** Blanks are the space, the tab, the line feed and the carriage return. */
  lemma BlanksExactly(c: char)
    ensures IsBlank(c) <==> c as int in {0x20, 0x09, 0x0A, 0x0D}
  {
  }

  predicate Blanks(ws: string) {
    forall i | 0 <= i < |ws| :: ws[i] as int in {0x20, 0x09, 0x0A, 0x0D}
  }

  lemma BlanksAreBlank(ws: string)
    requires Blanks(ws)
    ensures JsonDump.Blank(ws)
  {
    forall i | 0 <= i < |ws| ensures IsBlank(ws[i]) { BlanksExactly(ws[i]); }
  }

  /** Blanks in front of a text change nothing. */
  lemma BlanksInFront(ws: string, rest: string)
    requires Blanks(ws)
    ensures Stream(ws + rest) == Stream(rest)
  {
    BlanksAreBlank(ws);
    ReadsBlank(ws, rest);
    assert [] + Stream(rest) == Stream(rest);
  }

  /** The text of a token, and whether it is one: the six structural characters, the three words, a quoted string
      body, a number. */
  predicate Written(kind: TokenType, w: string) {
    match kind
    case BeginArray => w == "["
    case EndArray => w == "]"
    case BeginObject => w == "{"
    case EndObject => w == "}"
    case NameSeparator => w == ":"
    case ValueSeparator => w == ","
    case LiteralTrue => w == "true"
    case LiteralFalse => w == "false"
    case LiteralNull => w == "null"
    case ValueString => |w| >= 2 && w[0] == '"' && w[|w| - 1] == '"' && StringBody(w[1..|w| - 1])
    case _ => false
  }

  ghost predicate WrittenToken(kind: TokenType, w: string) {
    if kind == ValueNumber then IsNumber(w) else Written(kind, w)
  }

  datatype Piece = Piece(kind: TokenType, word: string, gap: string)

  /** Tokens with blanks behind them; behind a number something else than a further token must follow. */
  ghost predicate Laid(ps: seq<Piece>) {
    && (forall i | 0 <= i < |ps| :: WrittenToken(ps[i].kind, ps[i].word) && Blanks(ps[i].gap))
    && (forall i | 0 <= i < |ps| - 1 :: ps[i].kind == ValueNumber ==> ps[i].gap != "")
  }

  function TextOfPieces(ps: seq<Piece>): string {
    if ps == [] then "" else ps[0].word + (ps[0].gap + TextOfPieces(ps[1..]))
  }

  function TokensOf(ps: seq<Piece>): seq<Token> {
    if ps == [] then [] else [Tagged(ps[0].kind, ps[0].word)] + TokensOf(ps[1..])
  }

  lemma ReadsWritten(kind: TokenType, w: string, rest: string)
    requires WrittenToken(kind, w) && (kind == ValueNumber ==> EndsNumber(rest))
    ensures Reads(w, rest, true, [Tagged(kind, w)])
  {
    hide Reads, IsNumber, EndsNumber, StringBody;
    match kind {
      case BeginArray => ReadsMark(kind, rest);
      case EndArray => ReadsMark(kind, rest);
      case BeginObject => ReadsMark(kind, rest);
      case EndObject => ReadsMark(kind, rest);
      case NameSeparator => ReadsMark(kind, rest);
      case ValueSeparator => ReadsMark(kind, rest);
      case LiteralTrue => ReadsWord(w, rest, kind);
      case LiteralFalse => ReadsWord(w, rest, kind);
      case LiteralNull => ReadsWord(w, rest, kind);
      case ValueString => ReadsBody(w, rest);
      case _ => ReadsNumber(w, rest);
    }
  }

  lemma ReadsBody(w: string, rest: string)
    requires Written(ValueString, w)
    ensures Reads(w, rest, true, [Token(ValueString, w)])
  {
    hide Reads, Lex, StringBody;
    var t := w + rest;
    assert t[..|w|] == w && t[1..|w| - 1] == w[1..|w| - 1];
    StringTokens(t, |w|);
    ReadsToken(w, rest, ValueString);
  }

  lemma BlankEndsNumber(gap: string, rest: string)
    requires Blanks(gap) && (gap != "" || rest == "")
    ensures EndsNumber(gap + rest)
  {
    if gap != "" { assert (gap + rest)[0] == gap[0]; }
  }

  /** However tokens are laid out, with any of the four blanks between them, the scanner finds just these tokens. */
  lemma {:induction false} LayoutDoesNotMatter(ws: string, ps: seq<Piece>)
    requires Blanks(ws) && Laid(ps)
    ensures Stream(ws + TextOfPieces(ps)) == TokensOf(ps) + [Token(EndOfInput, "")]
    decreases |ps|
  {
    hide WrittenToken, Stream;
    BlanksInFront(ws, TextOfPieces(ps));
    if ps == [] {
      NothingLeft();
    } else {
      var p, more := ps[0], TextOfPieces(ps[1..]);
      assert |ps| == 1 ==> more == "";
      if p.kind == ValueNumber { BlankEndsNumber(p.gap, more); }
      ReadsWritten(p.kind, p.word, p.gap + more);
      LayoutDoesNotMatter(p.gap, ps[1..]);
      assert [Tagged(p.kind, p.word)] + (TokensOf(ps[1..]) + [Token(EndOfInput, "")])
        == TokensOf(ps) + [Token(EndOfInput, "")];
    }
  }

  // ----- which token a text starts with -----

  predicate StringUpTo(t: string, n: nat) {
    2 <= n <= |t| && t[0] == '"' && t[n - 1] == '"' && StringBody(t[1..n - 1])
  }

  ghost predicate StartsWithString(t: string) {
    exists n: nat :: StringUpTo(t, n)
  }

  ghost predicate StartsWithNumber(t: string) {
    exists n :: 0 <= n <= |t| && IsNumber(t[..n])
  }

  lemma StringsExactly(t: string)
    ensures Lex(t).token == ValueString <==> StartsWithString(t)
  {
    hide Lex, StringBody;
    assert Lex(t).token == ValueString ==> Lex(t) == Lexed(ValueString, Lex(t).length);
    StringTokens(t, Lex(t).length);
    if Lex(t).token == ValueString { assert StringUpTo(t, Lex(t).length); }
    if n: nat :| StringUpTo(t, n) { StringTokens(t, n); }
  }

  lemma NumbersExactly(t: string)
    ensures Lex(t).token == ValueNumber <==> StartsWithNumber(t)
  {
    hide Lex, IsNumber;
    if Lex(t).token == ValueNumber { NumberTokensOnly(t); }
    if n :| 0 <= n <= |t| && IsNumber(t[..n]) { NumberTokens(t, n); }
  }

  /** Which token a text starts with; everything that starts with no token is an error. */
  lemma TokensExactly(t: string)
    ensures Lex(t).token == BeginArray <==> t != "" && t[0] == '['
    ensures Lex(t).token == EndArray <==> t != "" && t[0] == ']'
    ensures Lex(t).token == BeginObject <==> t != "" && t[0] == '{'
    ensures Lex(t).token == EndObject <==> t != "" && t[0] == '}'
    ensures Lex(t).token == NameSeparator <==> t != "" && t[0] == ':'
    ensures Lex(t).token == ValueSeparator <==> t != "" && t[0] == ','
    ensures Lex(t).token == LiteralTrue <==> "true" <= t
    ensures Lex(t).token == LiteralFalse <==> "false" <= t
    ensures Lex(t).token == LiteralNull <==> "null" <= t
    ensures Lex(t).token == EndOfInput <==> t == "" || t[0] == '\0'
    ensures Lex(t).token == ValueString <==> StartsWithString(t)
    ensures Lex(t).token == ValueNumber <==> StartsWithNumber(t)
  {
    hide BodyEnd, NumberLength, StartsWithString, StartsWithNumber;
    StringsExactly(t);
    NumbersExactly(t);
    assert "true" <= t ==> t[0] == 't';
    assert "false" <= t ==> t[0] == 'f';
    assert "null" <= t ==> t[0] == 'n';
  }

  // ----- texts of one token -----

  lemma LeafIsRead(strtod: string -> Double, ws: string, kind: TokenType, w: string, gap: string, c: Syntax)
    requires Blanks(ws) && Blanks(gap) && WrittenToken(kind, w) && Flat(c) == [Tagged(kind, w)]
    ensures ParseText(strtod, ws + (w + (gap + ""))) ==
      if Meaning(strtod, c).Ok? then Ok(Meaning(strtod, c).value) else Err(Meaning(strtod, c).error)
  {
    hide Stream, ParseValue, Flat, Meaning, WrittenToken;
    var p := Piece(kind, w, gap);
    var ps := [p];
    assert ps[1..] == [] && TextOfPieces(ps) == w + (gap + "");
    assert TokensOf(ps) == [Tagged(kind, w)] + [] == Flat(c);
    LayoutDoesNotMatter(ws, ps);
    ParseFlat(strtod, c, [Token(EndOfInput, "")]);
    assert Stream(ws + TextOfPieces(ps)) == Flat(c) + [Token(EndOfInput, "")];
  }

  /** The texts of the constants. */
  lemma WordsAreRead(strtod: string -> Double, ws: string, gap: string)
    requires Blanks(ws) && Blanks(gap)
    ensures ParseText(strtod, ws + ("null" + (gap + ""))) == Ok(Null)
    ensures ParseText(strtod, ws + ("true" + (gap + ""))) == Ok(Bool(true))
    ensures ParseText(strtod, ws + ("false" + (gap + ""))) == Ok(Bool(false))
  {
    hide ParseText;
    LeafIsRead(strtod, ws, LiteralNull, "null", gap, NullWord);
    LeafIsRead(strtod, ws, LiteralTrue, "true", gap, TrueWord);
    LeafIsRead(strtod, ws, LiteralFalse, "false", gap, FalseWord);
  }

  /** What a text that is one number means: an integer in range its value, anything with a fraction or an exponent
      what `strtod` makes of it, or null if that is not finite. */
  lemma NumbersAreRead(strtod: string -> Double, ws: string, w: string, gap: string)
    requires Blanks(ws) && Blanks(gap) && IsNumber(w)
    ensures var r := ParseText(strtod, ws + (w + (gap + "")));
      && (Digits1(w) && ValueOf(w) <= 0xFFFF_FFFF_FFFF_FFFF ==> r == Ok(Uint(ValueOf(w))))
      && (w[..1] == "-" && Digits1(w[1..]) && ValueOf(w[1..]) <= 0x8000_0000_0000_0000 ==>
            r.Ok? && r.value.Int? && r.value.i == 0 - ValueOf(w[1..]))
      && (!AllDigits(w[MinusLength(w)..]) ==> r == Ok(if strtod(w).Finite? then Float(strtod(w)) else Null))
  {
    hide ValueOf, IsNumber, ParseText;
    NumberStarts(w);
    LeafIsRead(strtod, ws, ValueNumber, w, gap, NumberText(w));
    if Digits1(w) {
      IntegersAreExact(w);
    } else if w[..1] == "-" && Digits1(w[1..]) {
      assert w == "-" + w[1..];
      IntegersAreExact(w[1..]);
    }
    if !AllDigits(w[MinusLength(w)..]) { OthersAreFloating(w); }
  }

  /** What a text that is one string means. */
  lemma StringsAreRead(strtod: string -> Double, ws: string, w: string, gap: string)
    requires Blanks(ws) && Blanks(gap) && Written(ValueString, w)
    ensures WellEscaped(w[1..|w| - 1])
    ensures ParseText(strtod, ws + (w + (gap + ""))) ==
      var s := Decoded(w[1..|w| - 1]); if s.Ok? then Ok(Str(s.value)) else Err(s.error)
  {
    hide ParseText, Decoded, WellEscaped, StringBody;
    StringBodyIsWellEscaped(w[1..|w| - 1]);
    LeafIsRead(strtod, ws, ValueString, w, gap, StringText(w));
  }
}
