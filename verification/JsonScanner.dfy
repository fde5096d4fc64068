/** The lexer: `scan` finds the next token of a text (sections 2 to 7 of RFC 7159). */
module JsonScanner {
  import opened Decimal
  import opened JsonNumber
  import opened JsonString
  import opened Outcomes
  import opened Utf8

  datatype TokenType =
    | Uninitialized
    | LiteralTrue
    | LiteralFalse
    | LiteralNull
    | ValueString
    | ValueNumber
    | BeginArray
    | BeginObject
    | EndArray
    | EndObject
    | NameSeparator
    | ValueSeparator
    | ParseError
    | EndOfInput

  /** A token and the length of its text. */
  datatype Lexed = Lexed(token: TokenType, length: nat)

  // ----- what a token is -----

  predicate IsBlank(c: char) {
    c == ' ' || c == '\t' || c == '\n' || c == '\r'
  }

  function Plus(n: nat, more: Option<nat>): Option<nat> {
    if more.Some? then Some(n + more.value) else None
  }

  /** How far it is to the end of the quote that closes the string literal whose inside a text starts
      with; `None` if there is no such literal. */
  function BodyEnd(s: string): Option<nat>
    decreases |s|
  {
    if s != "" && s[0] == '"' then Some(1)
    else if UnitLength(s) > 0 then Plus(UnitLength(s), BodyEnd(s[UnitLength(s)..]))
    else None
  }

  function LiteralOr(t: string, literal: string, token: TokenType): Lexed {
    if literal <= t then Lexed(token, |literal|) else Lexed(ParseError, 1)
  }

  /** The token a text starts with, blanks aside.  The end of the text reads as a NUL byte. */
  function Lex(t: string): Lexed {
    if t == "" then Lexed(EndOfInput, 1)
    else if t[0] == '-' || IsDigit(t[0]) then
      if NumberLength(t) > 0 then Lexed(ValueNumber, NumberLength(t)) else Lexed(ParseError, 1)
    else
      match t[0]
      case '\0' => Lexed(EndOfInput, 1)
      case '"' =>
        var end := BodyEnd(t[1..]);
        if end.Some? then Lexed(ValueString, 1 + end.value) else Lexed(ParseError, 1)
      case ',' => Lexed(ValueSeparator, 1)
      case ':' => Lexed(NameSeparator, 1)
      case '[' => Lexed(BeginArray, 1)
      case ']' => Lexed(EndArray, 1)
      case '{' => Lexed(BeginObject, 1)
      case '}' => Lexed(EndObject, 1)
      case 'f' => LiteralOr(t, "false", LiteralFalse)
      case 'n' => LiteralOr(t, "null", LiteralNull)
      case 't' => LiteralOr(t, "true", LiteralTrue)
      case _ => Lexed(ParseError, 1)
  }

  // ----- strings and numbers -----

  lemma {:induction false} BodyEndBound(s: string)
    requires BodyEnd(s).Some?
    ensures 1 <= BodyEnd(s).value <= |s|
    ensures s[BodyEnd(s).value - 1] == '"' && StringBody(s[..BodyEnd(s).value - 1])
    decreases |s|
  {
    hide UnitLength;
    if s[0] != '"' {
      var n := UnitLength(s);
      var t := s[n..];
      BodyEndBound(t);
      var e := BodyEnd(s).value;
      UnitOfPrefix(s, s[..e - 1]);
      assert s[..e - 1][n..] == t[..e - 1 - n];
    }
  }

  /** A unit is recognised whatever follows it. */
  lemma UnitOfPrefix(s: string, p: string)
    requires 0 < UnitLength(s) <= |p| <= |s| && p == s[..|p|]
    ensures UnitLength(p) == UnitLength(s)
  {
    if s[0] == '\\' && s[1] == 'u' {
      assert p[2..] == s[2..][..|p| - 2];
    }
  }

  lemma UnitAppend(p: string, rest: string)
    requires UnitLength(p) > 0
    ensures UnitLength(p + rest) == UnitLength(p)
  {
    var s := p + rest;
    if p[0] == '\\' && p[1] == 'u' {
      assert s[2..] == p[2..] + rest;
    }
  }

  /** A body ends at the first quote that is not part of an escape, so the end is unique. */
  lemma {:induction false} BodyEndOf(p: string, rest: string)
    requires StringBody(p)
    ensures BodyEnd(p + "\"" + rest) == Some(|p| + 1)
    decreases |p|
  {
    hide UnitLength;
    var s := p + "\"" + rest;
    if p != "" {
      var n := UnitLength(p);
      BodyEndOf(p[n..], rest);
      UnitAppend(p, "\"" + rest);
      assert s == p + ("\"" + rest);
      assert s[n..] == p[n..] + "\"" + rest;
      assert s[0] == p[0] != '"' by { UnitIsNoQuote(p); }
    }
  }

  lemma UnitIsNoQuote(p: string)
    requires UnitLength(p) > 0
    ensures p[0] != '"'
  {
  }

  lemma LexOfString(t: string)
    ensures if t != "" && t[0] == '"' then
        Lex(t) == if BodyEnd(t[1..]).Some? then Lexed(ValueString, 1 + BodyEnd(t[1..]).value) else Lexed(ParseError, 1)
      else Lex(t).token != ValueString
  {
    hide BodyEnd, NumberLength;
  }

  /** A string token is a quoted sequence of legal escapes and well-formed UTF-8 without raw control
      characters, and every text that starts with such a sequence yields it. */
  lemma StringTokens(t: string, n: nat)
    ensures Lex(t) == Lexed(ValueString, n) <==>
      2 <= n <= |t| && t[0] == '"' && t[n - 1] == '"' && StringBody(t[1..n - 1])
  {
    hide *;
    LexOfString(t);
    if 2 <= n <= |t| && t[0] == '"' && t[n - 1] == '"' && StringBody(t[1..n - 1]) {
      assert t[1..] == t[1..n - 1] + "\"" + t[n..];
      BodyEndOf(t[1..n - 1], t[n..]);
    }
    if Lex(t) == Lexed(ValueString, n) {
      BodyEndBound(t[1..]);
      assert t[1..][..n - 2] == t[1..n - 1];
    }
  }

  /** A number token is the longest number the text starts with; there is one whenever the text starts
      with a number at all. */
  lemma NumberTokens(t: string, n: nat)
    requires n <= |t| && IsNumber(t[..n])
    ensures Lex(t).token == ValueNumber && n <= Lex(t).length <= |t| && IsNumber(t[..Lex(t).length])
  {
    NumberStarts(t[..n]);
    assert t[0] == t[..n][0];
    NumberLengthIsLongest(t, n);
    NumberLengthIsNumber(t);
  }

  lemma NumberStarts(s: string)
    requires IsNumber(s)
    ensures s != "" && (s[0] == '-' || IsDigit(s[0]))
  {
  }

  /** Only numbers are number tokens. */
  lemma NumberTokensOnly(t: string)
    requires Lex(t).token == ValueNumber
    ensures Lex(t).length <= |t| && IsNumber(t[..Lex(t).length])
  {
    hide NumberLength, BodyEnd;
    NumberLengthIsNumber(t);
  }

  /** Every token other than the end lies inside the text and is not empty. */
  lemma LexBound(t: string)
    ensures Lex(t).length > 0
    ensures Lex(t).token != EndOfInput ==> Lex(t).length <= |t|
  {
    hide NumberLength, BodyEnd;
    if t != "" && t[0] == '"' && BodyEnd(t[1..]).Some? {
      BodyEndBound(t[1..]);
    }
  }

  // ----- the automaton -----

  /** The labels of the automaton, named after what has been read; `HexDigits`, `Tails` and `InLiteral`
      stand for one label for each value of their parameters. */
  datatype State =
    | AfterQuote
    | InString
    | AfterBackslash
    | HexDigits(left: nat)
    | Tails(lo: nat, hi: nat, more: nat)
    | AfterMinus
    | AfterZero
    | InInt
    | AfterPoint
    | InFrac
    | AfterE
    | AfterSign
    | InExp
    | InLiteral(rest: string, token: TokenType)
  {
    predicate Valid() {
      match this
      case HexDigits(left) => left > 0
      case Tails(lo, _, _) => lo >= 0x80
      case InLiteral(rest, _) => rest in {"alse", "lse", "se", "e", "ull", "ll", "l", "rue", "ue"}
      case _ => true
    }

    /** `m_marker = ++m_cursor` at these labels. */
    predicate Marks() {
      AfterQuote? || AfterZero? || InInt? || InFrac? || (InLiteral? && rest in {"alse", "ull", "rue"})
    }

    /** The value of `yyaccept` set there: whether to fall back to a number. */
    predicate AcceptsNumber() {
      AfterZero? || InInt? || InFrac?
    }

    function Accepts(): TokenType {
      match this
      case AfterQuote | InString | AfterBackslash | HexDigits(_) | Tails(_, _, _) => ValueString
      case InLiteral(_, t) => t
      case _ => ValueNumber
    }
  }

  /** What a label does with the current character. */
  datatype Move =
    | Shift(next: State)
    | Finish(token: TokenType, consume: bool)
    | Backtrack

  /** The first character of a token. */
  function First(c: char): Move {
    if c == '\0' then Finish(EndOfInput, true)
    else if c == '"' then Shift(AfterQuote)
    else if c == ',' then Finish(ValueSeparator, true)
    else if c == '-' then Shift(AfterMinus)
    else if c == '0' then Shift(AfterZero)
    else if '1' <= c <= '9' then Shift(InInt)
    else if c == ':' then Finish(NameSeparator, true)
    else if c == '[' then Finish(BeginArray, true)
    else if c == ']' then Finish(EndArray, true)
    else if c == 'f' then Shift(InLiteral("alse", LiteralFalse))
    else if c == 'n' then Shift(InLiteral("ull", LiteralNull))
    else if c == 't' then Shift(InLiteral("rue", LiteralTrue))
    else if c == '{' then Finish(BeginObject, true)
    else if c == '}' then Finish(EndObject, true)
    else Finish(ParseError, true)
  }

  /** Inside a string literal. */
  function StringMove(c: char): Move {
    if c as int <= 0x1F then Backtrack
    else if c == '"' then Finish(ValueString, true)
    else if c == '\\' then Shift(AfterBackslash)
    else if c as int <= 0x7F then Shift(InString)
    else if c as int <= 0xC1 then Backtrack
    else if c as int <= 0xDF then Shift(Tails(0x80, 0xBF, 0))
    else if c as int <= 0xE0 then Shift(Tails(0xA0, 0xBF, 1))
    else if c as int == 0xED then Shift(Tails(0x80, 0x9F, 1))
    else if c as int <= 0xEF then Shift(Tails(0x80, 0xBF, 1))
    else if c as int <= 0xF0 then Shift(Tails(0x90, 0xBF, 2))
    else if c as int <= 0xF3 then Shift(Tails(0x80, 0xBF, 2))
    else if c as int <= 0xF4 then Shift(Tails(0x80, 0x8F, 2))
    else Backtrack
  }

  function Step(state: State, c: char): Move
    requires state.Valid()
  {
    match state
    case AfterQuote =>
      if c as int <= 0x1F || 0x7F < c as int <= 0xC1 || 0xF4 < c as int then Finish(ParseError, false)
      else StringMove(c)
    case InString => StringMove(c)
    case AfterBackslash =>
      if c in {'"', '/', '\\', 'b', 'f', 'n', 'r', 't'} then Shift(InString)
      else if c == 'u' then Shift(HexDigits(4))
      else Backtrack
    case HexDigits(left) =>
      if !IsHex(c) then Backtrack else Shift(if left == 1 then InString else HexDigits(left - 1))
    case Tails(lo, hi, more) =>
      if !InRange(c, lo, hi) then Backtrack else Shift(if more == 0 then InString else Tails(0x80, 0xBF, more - 1))
    case AfterMinus =>
      if c == '0' then Shift(AfterZero) else if '1' <= c <= '9' then Shift(InInt) else Finish(ParseError, false)
    case AfterZero =>
      if c == '.' then Shift(AfterPoint) else if c == 'E' || c == 'e' then Shift(AfterE) else Finish(ValueNumber, false)
    case InInt =>
      if IsDigit(c) then Shift(InInt)
      else if c == '.' then Shift(AfterPoint)
      else if c == 'E' || c == 'e' then Shift(AfterE)
      else Finish(ValueNumber, false)
    case AfterPoint => if IsDigit(c) then Shift(InFrac) else Backtrack
    case InFrac =>
      if IsDigit(c) then Shift(InFrac) else if c == 'E' || c == 'e' then Shift(AfterE) else Finish(ValueNumber, false)
    case AfterE => if c == '+' || c == '-' then Shift(AfterSign) else if IsDigit(c) then Shift(InExp) else Backtrack
    case AfterSign => if IsDigit(c) then Shift(InExp) else Backtrack
    case InExp => if IsDigit(c) then Shift(InExp) else Finish(ValueNumber, false)
    case InLiteral(rest, token) =>
      if c != rest[0] then Backtrack
      else if |rest| == 1 then Finish(token, true)
      else Shift(InLiteral(rest[1..], token))
  }

  // ----- what each state still expects -----

  function DigitsThenExp(s: string): nat {
    DigitCount(s) + ExpLength(s[DigitCount(s)..])
  }

  /** How much more of the text belongs to the token when the automaton is in this state. */
  function Remaining(state: State, s: string): Option<nat> {
    match state
    case AfterQuote | InString => BodyEnd(s)
    case AfterBackslash =>
      if s != "" && SimpleEscape(s[0]).Some? then Plus(1, BodyEnd(s[1..]))
      else if s != "" && s[0] == 'u' && FourHex(s[1..]) then Plus(5, BodyEnd(s[5..]))
      else None
    case HexDigits(left) =>
      if |s| >= left && (forall i | 0 <= i < left :: IsHex(s[i])) then Plus(left, BodyEnd(s[left..])) else None
    case Tails(lo, hi, more) =>
      if |s| > more && InRange(s[0], lo, hi) && (forall i | 1 <= i <= more :: Tail(s[i]))
      then Plus(more + 1, BodyEnd(s[more + 1..])) else None
    case AfterMinus => if IntLength(s) > 0 then Some(IntLength(s) + TailLength(s[IntLength(s)..])) else None
    case AfterZero => Some(TailLength(s))
    case InInt => Some(DigitCount(s) + TailLength(s[DigitCount(s)..]))
    case AfterPoint => if DigitCount(s) > 0 then Some(DigitsThenExp(s)) else None
    case InFrac => Some(DigitsThenExp(s))
    case AfterE =>
      if s != "" && (s[0] == '+' || s[0] == '-') then
        if DigitCount(s[1..]) > 0 then Some(1 + DigitCount(s[1..])) else None
      else if DigitCount(s) > 0 then Some(DigitCount(s)) else None
    case AfterSign => if DigitCount(s) > 0 then Some(DigitCount(s)) else None
    case InExp => Some(DigitCount(s))
    case InLiteral(rest, _) => if rest <= s then Some(|rest|) else None
  }

  /** Where backtracking leads: the length the token would have, and whether it would be a number. */
  datatype Fallback = Fallback(length: nat, number: bool) {
    function Result(): Lexed {
      Lexed(if number then ValueNumber else ParseError, length)
    }
  }

  /** `goal` is the token that results when `read` characters have led to this state, `s` follows and
      backtracking leads to `back`. */
  predicate Agrees(goal: Lexed, state: State, s: string, read: nat, back: Fallback) {
    && state.Valid()
    && (state.Marks() || state.AfterMinus? ==> back == Fallback(read, state.AcceptsNumber()))
    && (state.Accepts() == ValueString ==> !back.number)
    && goal == var more := Remaining(state, s);
         if more.Some? then Lexed(state.Accepts(), read + more.value) else back.Result()
  }

  function Entered(state: State, read: nat, back: Fallback): Fallback {
    if state.Marks() || state.AfterMinus? then Fallback(read, state.AcceptsNumber()) else back
  }

  /** The move chosen at the current character leads to the goal as well. */
  predicate Leads(goal: Lexed, move: Move, s: string, read: nat, back: Fallback) {
    match move
    case Shift(next) =>
      s != "" && next.Valid() && Agrees(goal, next, s[1..], read + 1, Entered(next, read + 1, back))
    case Finish(token, consume) => goal == Lexed(token, if consume then read + 1 else read)
    case Backtrack => goal == back.Result()
  }

  function Head(s: string): char {
    if s == "" then '\0' else s[0]
  }

  /** What a string body may go on with, by its first byte. */
  lemma BodyEndByte(s: string)
    ensures s == "" || s[0] as int <= 0x1F ==> BodyEnd(s) == None
    ensures s != "" && s[0] == '"' ==> BodyEnd(s) == Some(1)
    ensures s != "" && s[0] == '\\' ==> BodyEnd(s) == Plus(1, Remaining(AfterBackslash, s[1..]))
    ensures s != "" && 0x1F < s[0] as int <= 0x7F && s[0] != '"' && s[0] != '\\' ==>
      BodyEnd(s) == Plus(1, BodyEnd(s[1..]))
  {
    if |s| >= 6 && s[0] == '\\' && s[1] == 'u' && FourHex(s[2..]) {
      assert s[1..][1..] == s[2..] && s[1..][5..] == s[6..];
    } else if |s| >= 2 && s[0] == '\\' {
      assert s[1..][1..] == s[2..];
    }
  }

  /** The bytes that may follow the first one of a longer character. */
  function TailsAfter(c: char): (t: Option<State>)
    ensures t.Some? ==> t.value.Tails? && t.value.more <= 2
  {
    match StringMove(c)
    case Shift(next) => if next.Tails? then Some(next) else None
    case _ => None
  }

  /** Whether the bytes that are expected next are there. */
  predicate TailsFollow(t: State, s: string)
    requires t.Tails?
  {
    |s| > t.more && InRange(s[0], t.lo, t.hi) && forall i | 1 <= i <= t.more :: Tail(s[i])
  }

  lemma LongCharLength(s: string)
    requires s != "" && s[0] as int > 0x7F
    ensures var t := TailsAfter(s[0]);
      CharLength(s) == if t.Some? && TailsFollow(t.value, s[1..]) then t.value.more + 2 else 0
  {
    var t := TailsAfter(s[0]);
    if t.Some? && |s| > t.value.more + 1 {
      var u := s[1..];
      assert u[0] == s[1];
      assert t.value.more >= 1 ==> u[1] == s[2];
      assert t.value.more >= 2 ==> u[2] == s[3];
    }
  }

  lemma BodyEndLong(s: string)
    requires s != "" && s[0] as int > 0x7F
    ensures BodyEnd(s) ==
      if TailsAfter(s[0]).Some? then Plus(1, Remaining(TailsAfter(s[0]).value, s[1..])) else None
  {
    LongCharLength(s);
    hide EscapeLength, CharLength, TailsAfter;
    var t := TailsAfter(s[0]);
    if t.Some? && TailsFollow(t.value, s[1..]) {
      assert s[1..][t.value.more + 1..] == s[t.value.more + 2..];
    }
  }

  lemma StringLeads(goal: Lexed, state: State, s: string, read: nat, back: Fallback)
    requires state.AfterQuote? || state.InString?
    requires Agrees(goal, state, s, read, back)
    ensures Leads(goal, Step(state, Head(s)), s, read, back)
  {
    hide BodyEnd, FourHex;
    assert Remaining(state, s) == BodyEnd(s);
    BodyEndByte(s);
    if s != "" && s[0] as int > 0x7F {
      BodyEndLong(s);
    }
  }

  lemma BackslashLeads(goal: Lexed, s: string, read: nat, back: Fallback)
    requires Agrees(goal, AfterBackslash, s, read, back)
    ensures Leads(goal, Step(AfterBackslash, Head(s)), s, read, back)
  {
    hide BodyEnd;
    if s != "" && s[0] == 'u' {
      assert |s| >= 5 ==> s[1..][4..] == s[5..];
    }
  }

  lemma HexLeads(goal: Lexed, left: nat, s: string, read: nat, back: Fallback)
    requires left > 0 && Agrees(goal, HexDigits(left), s, read, back)
    ensures Leads(goal, Step(HexDigits(left), Head(s)), s, read, back)
  {
    hide BodyEnd;
    if s != "" {
      var t := s[1..];
      assert |s| >= left ==> t[left - 1..] == s[left..];
      assert forall i | 1 <= i < left && i < |s| :: s[i] == t[i - 1];
    }
  }

  lemma TailsLeads(goal: Lexed, lo: nat, hi: nat, more: nat, s: string, read: nat, back: Fallback)
    requires lo >= 0x80 && Agrees(goal, Tails(lo, hi, more), s, read, back)
    ensures Leads(goal, Step(Tails(lo, hi, more), Head(s)), s, read, back)
  {
    hide BodyEnd;
    if s != "" {
      var t := s[1..];
      assert |s| > more ==> t[more..] == s[more + 1..];
      assert forall i | 1 <= i <= more && i < |s| :: s[i] == t[i - 1];
    }
  }

  /** An exponent is what may follow its letter. */
  lemma ExpLengthStep(s: string)
    ensures ExpLength(s) ==
      if s != "" && (s[0] == 'e' || s[0] == 'E') && Remaining(AfterE, s[1..]).Some? then
        1 + Remaining(AfterE, s[1..]).value
      else 0
  {
    hide DigitCount;
    assert |s| > 1 ==> s[1..][1..] == s[2..];
  }

  lemma MinusLeads(goal: Lexed, s: string, read: nat, back: Fallback)
    requires Agrees(goal, AfterMinus, s, read, back)
    ensures Leads(goal, Step(AfterMinus, Head(s)), s, read, back)
  {
    hide DigitCount, TailLength;
    DigitCountStep(s);
    if s != "" {
      assert s[1..][DigitCount(s[1..])..] == s[1 + DigitCount(s[1..])..];
    }
  }

  /** After a complete integer part that can have no further digits. */
  lemma ZeroLeads(goal: Lexed, s: string, read: nat, back: Fallback)
    requires Agrees(goal, AfterZero, s, read, back)
    ensures Leads(goal, Step(AfterZero, Head(s)), s, read, back)
  {
    TailLengthStep(s);
    ExpLengthStep(s);
    hide DigitCount, TailLength, ExpLength, DigitsThenExp;
  }

  lemma IntGoesOn(goal: Lexed, s: string, read: nat, back: Fallback)
    requires Agrees(goal, InInt, s, read, back) && s != "" && IsDigit(s[0])
    ensures Leads(goal, Step(InInt, s[0]), s, read, back)
  {
    DigitCountStep(s);
    hide DigitCount, TailLength;
    assert s[1..][DigitCount(s[1..])..] == s[1 + DigitCount(s[1..])..];
  }

  lemma IntEnds(goal: Lexed, s: string, read: nat, back: Fallback)
    requires Agrees(goal, InInt, s, read, back) && !IsDigit(Head(s))
    ensures Leads(goal, Step(InInt, Head(s)), s, read, back)
  {
    assert DigitCount(s) == 0 && s[0..] == s;
    TailLengthStep(s);
    ExpLengthStep(s);
    hide DigitCount, TailLength, ExpLength, DigitsThenExp;
  }

  lemma FractionLeads(goal: Lexed, state: State, s: string, read: nat, back: Fallback)
    requires state.AfterPoint? || state.InFrac?
    requires Agrees(goal, state, s, read, back)
    ensures Leads(goal, Step(state, Head(s)), s, read, back)
  {
    hide DigitCount, ExpLength;
    DigitCountStep(s);
    ExpLengthStep(s);
    assert s[0..] == s;
    if s != "" {
      assert s[1..][DigitCount(s[1..])..] == s[1 + DigitCount(s[1..])..];
    }
  }

  lemma ExponentLeads(goal: Lexed, state: State, s: string, read: nat, back: Fallback)
    requires state.AfterE? || state.AfterSign? || state.InExp?
    requires Agrees(goal, state, s, read, back)
    ensures Leads(goal, Step(state, Head(s)), s, read, back)
  {
    hide DigitCount, ExpLength;
    DigitCountStep(s);
  }

  /** After the integer part: a fraction, an exponent or nothing. */
  lemma TailLengthStep(s: string)
    ensures TailLength(s) ==
      if s != "" && s[0] == '.' then
        if DigitCount(s[1..]) > 0 then 1 + DigitsThenExp(s[1..]) else 0
      else ExpLength(s)
  {
    hide DigitCount;
    assert s[0..] == s;
    if s != "" && s[0] == '.' {
      assert s[1..][DigitCount(s[1..])..] == s[1 + DigitCount(s[1..])..];
    }
  }

  lemma DigitCountStep(s: string)
    ensures DigitCount(s) == if s != "" && IsDigit(s[0]) then 1 + DigitCount(s[1..]) else 0
  {
  }

  lemma LiteralLeads(goal: Lexed, state: State, s: string, read: nat, back: Fallback)
    requires state.InLiteral?
    requires Agrees(goal, state, s, read, back)
    ensures Leads(goal, Step(state, Head(s)), s, read, back)
  {
    var rest := state.rest;
    if s != "" && s[0] == rest[0] {
      assert rest <= s <==> rest[1..] <= s[1..] by {
        assert rest == [rest[0]] + rest[1..] && s == [s[0]] + s[1..];
      }
    }
  }

  lemma StepLeads(goal: Lexed, state: State, s: string, read: nat, back: Fallback)
    requires Agrees(goal, state, s, read, back)
    ensures Leads(goal, Step(state, Head(s)), s, read, back)
  {
    hide Leads, Step, Remaining;
    match state
    case AfterQuote | InString => StringLeads(goal, state, s, read, back);
    case AfterBackslash => BackslashLeads(goal, s, read, back);
    case HexDigits(left) => HexLeads(goal, left, s, read, back);
    case Tails(lo, hi, more) => TailsLeads(goal, lo, hi, more, s, read, back);
    case InLiteral(_, _) => LiteralLeads(goal, state, s, read, back);
    case AfterPoint | InFrac => FractionLeads(goal, state, s, read, back);
    case AfterE | AfterSign | InExp => ExponentLeads(goal, state, s, read, back);
    case AfterMinus => MinusLeads(goal, s, read, back);
    case AfterZero => ZeroLeads(goal, s, read, back);
    case InInt => if IsDigit(Head(s)) { IntGoesOn(goal, s, read, back); } else { IntEnds(goal, s, read, back); }
  }

  lemma FirstOfNumber(t: string)
    requires t != "" && (t[0] == '-' || IsDigit(t[0]))
    ensures Leads(Lex(t), First(t[0]), t, 0, Fallback(0, false))
  {
    hide TailLength, DigitCount;
    var s := t[1..];
    DigitCountStep(t);
    if t[0] == '-' {
      assert IntLength(s) > 0 ==> s[IntLength(s)..] == t[1 + IntLength(s)..];
    } else {
      assert t[0..] == t;
      assert DigitCount(s) >= 0 && s[DigitCount(s)..] == t[1 + DigitCount(s)..];
    }
  }

  lemma FirstOfLiteral(t: string)
    requires t != "" && t[0] in {'f', 'n', 't'}
    ensures Leads(Lex(t), First(t[0]), t, 0, Fallback(0, false))
  {
    assert t == [t[0]] + t[1..];
    assert "false" == ['f'] + "alse" && "null" == ['n'] + "ull" && "true" == ['t'] + "rue";
    assert t[0] == 'f' ==> ("false" <= t <==> "alse" <= t[1..]);
    assert t[0] == 'n' ==> ("null" <= t <==> "ull" <= t[1..]);
    assert t[0] == 't' ==> ("true" <= t <==> "rue" <= t[1..]);
  }

  lemma FirstOfString(t: string)
    requires t != "" && t[0] == '"'
    ensures Leads(Lex(t), First(t[0]), t, 0, Fallback(0, false))
  {
    hide BodyEnd;
  }

  /** The first character sets the automaton off towards the token the text starts with. */
  lemma FirstLeads(t: string)
    ensures Leads(Lex(t), First(Head(t)), t, 0, Fallback(0, false))
  {
    if t != "" && (t[0] == '-' || IsDigit(t[0])) {
      FirstOfNumber(t);
    } else if t != "" && t[0] in {'f', 'n', 't'} {
      FirstOfLiteral(t);
    } else if t != "" && t[0] == '"' {
      FirstOfString(t);
    } else {
      hide Agrees;
    }
  }

  // ----- scan -----

  /** The number of blanks a text starts with. */
  function BlankCount(s: string): (n: nat)
    ensures n <= |s| && forall i | 0 <= i < n :: IsBlank(s[i])
    ensures n < |s| ==> !IsBlank(s[n])
  {
    if s != "" && IsBlank(s[0]) then 1 + BlankCount(s[1..]) else 0
  }

  lemma BlankCountStep(s: string)
    requires s != "" && IsBlank(s[0])
    ensures BlankCount(s) == 1 + BlankCount(s[1..])
  {
  }

  lemma NoBlank(s: string)
    requires s == "" || !IsBlank(s[0])
    ensures BlankCount(s) == 0
  {
  }

  /** Before the first mark the automaton does not backtrack; after it, it never reads a sign again. */
  predicate Marked(move: Move, marked: bool) {
    if marked then move.Shift? ==> !move.next.AfterMinus?
    else !move.Backtrack? && (move.Shift? ==> move.next.Marks() || move.next.AfterMinus?)
  }

  lemma FirstMarked(c: char)
    ensures Marked(First(c), false)
  {
  }

  lemma StepMarked(state: State, c: char)
    requires state.Valid()
    ensures Marked(Step(state, c), true)
    ensures state.AfterMinus? ==> Marked(Step(state, c), false)
  {
  }

  class Lexer {
    const content: string
    var start: nat
    var cursor: nat
    var marker: Option<nat>

    constructor (text: string)
      ensures content == text && start == 0 && cursor == 0
    {
      content := text;
      start, cursor, marker := 0, 0, None;
    }

    /** The character at the cursor; the buffer is padded with a NUL byte. */
    function Current(): char
      requires cursor <= |content|
      reads this
    {
      Head(content[cursor..])
    }

    /** The text of the last token. */
    function TokenString(): string
      requires start <= cursor <= |content|
      reads this
    {
      content[start..cursor]
    }

    /** `scan`: skips blanks and runs the automaton on what follows. */
    method Scan() returns (token: TokenType)
      requires cursor <= |content|
      modifies this
      ensures start == old(cursor) + BlankCount(content[old(cursor)..])
      ensures cursor == start + Lex(content[start..]).length && token == Lex(content[start..]).token
    {
      hide Lex, BlankCount;
      ghost var blanks := BlankCount(content[cursor..]);
      ghost var from := cursor;
      while true
        invariant from <= cursor <= from + blanks
        invariant cursor + BlankCount(content[cursor..]) == from + blanks
        decreases |content| - cursor
      {
        marker := None;
        start := cursor;
        if !IsBlank(Current()) {
          NoBlank(content[cursor..]);
          token := Automaton();
          return;
        }
        while IsBlank(Current())
          decreases |content| - cursor
          invariant start <= cursor <= from + blanks
          invariant cursor == start ==> cursor < |content| && IsBlank(content[cursor])
          invariant cursor + BlankCount(content[cursor..]) == from + blanks
        {
          BlankCountStep(content[cursor..]);
          assert content[cursor..][1..] == content[cursor + 1..];
          cursor := cursor + 1;
        }
      }
    }

    /** One token: the labels of the automaton, with backtracking to the last marked position. */
    method Automaton() returns (token: TokenType)
      requires start == cursor <= |content|
      modifies this`cursor, this`marker
      ensures cursor >= start && Lexed(token, cursor - start) == Lex(content[start..])
    {
      hide Lex, First, Step, Agrees, Remaining, State.Marks, State.AcceptsNumber, State.Valid;
      ghost var goal := Lex(content[start..]);
      ghost var back := Fallback(0, false);
      ghost var marked := false;
      var acceptsNumber := false;
      var move := First(Current());
      FirstLeads(content[start..]);
      FirstMarked(Current());
      while move.Shift?
        invariant start <= cursor <= |content|
        invariant Leads(goal, move, content[cursor..], cursor - start, back)
        invariant Marked(move, marked)
        invariant marked ==> marker == Some(start + back.length) && acceptsNumber == back.number
        decreases |content| - cursor, move.Shift?
      {
        var state := move.next;
        assert content[cursor..][1..] == content[cursor + 1..];
        cursor := cursor + 1;
        back := Entered(state, cursor - start, back);
        if state.Marks() {
          marker := Some(cursor);
          acceptsNumber := state.AcceptsNumber();
          marked := true;
        }
        StepMarked(state, Current());
        move := Step(state, Current());
        StepLeads(goal, state, content[cursor..], cursor - start, back);
      }
      match move {
        case Finish(t, consume) =>
          if consume {
            cursor := cursor + 1;
          }
          token := t;
        case Backtrack =>
          cursor := marker.value;
          token := if acceptsNumber then ValueNumber else ParseError;
      }
    }
  }
}
