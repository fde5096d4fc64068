/** String literals (section 7 of RFC 7159): escaping, decoding and what the scanner accepts. */
module JsonString {
  import opened Numbers
  import opened Outcomes
  import opened Utf8

  // ----- hexadecimal digits -----

  predicate IsHex(c: char) {
    '0' <= c <= '9' || 'a' <= c <= 'f' || 'A' <= c <= 'F'
  }

  function HexValue(c: char): (v: nat)
    requires IsHex(c)
    ensures v < 16
  {
    if '0' <= c <= '9' then c as int - '0' as int
    else if 'a' <= c <= 'f' then c as int - 'a' as int + 10
    else c as int - 'A' as int + 10
  }

  predicate FourHex(s: string) {
    |s| >= 4 && forall i | 0 <= i < 4 :: IsHex(s[i])
  }

  /** `strtoul` with base 16 on the next four characters. */
  function Hex4(s: string): (v: nat)
    requires FourHex(s)
    ensures v < 0x1_0000
  {
    ((HexValue(s[0]) * 16 + HexValue(s[1])) * 16 + HexValue(s[2])) * 16 + HexValue(s[3])
  }

  /** Only the next four characters matter. */
  lemma Hex4Prefix(s: string, t: string)
    requires FourHex(s) && |t| >= 4 && s[..4] == t[..4]
    ensures FourHex(t) && Hex4(t) == Hex4(s)
  {
    assert forall i | 0 <= i < 4 :: s[i] == s[..4][i] && t[i] == t[..4][i];
  }

  // ----- to_unicode -----

  predicate HighSurrogate(cp: nat) {
    0xD800 <= cp <= 0xDBFF
  }

  predicate LowSurrogate(cp: nat) {
    0xDC00 <= cp <= 0xDFFF
  }

  /** The bytes of a code point: `|` on disjoint bits and shifts are written as arithmetic. */
  function Encoded(cp: nat): Result<string> {
    if cp < 0x80 then Ok([Byte(cp)])
    else if cp <= 0x7ff then
      Ok([Byte(0xC0 + cp / 0x40 % 0x20), Byte(0x80 + cp % 0x40)])
    else if cp <= 0xffff then
      Ok([Byte(0xE0 + cp / 0x1000 % 0x10), Byte(0x80 + cp / 0x40 % 0x40), Byte(0x80 + cp % 0x40)])
    else if cp <= 0x10ffff then
      Ok([Byte(0xF0 + cp / 0x40000 % 8), Byte(0x80 + cp / 0x1000 % 0x40), Byte(0x80 + cp / 0x40 % 0x40),
          Byte(0x80 + cp % 0x40)])
    else Err(OutOfRange)
  }

  /** `to_unicode`: one code point, or the two halves of a surrogate pair. */
  function ToUnicode(cp1: nat, cp2: nat): Result<string> {
    if HighSurrogate(cp1) then
      if LowSurrogate(cp2) then Encoded(cp1 * 0x400 + cp2 - 0x35FDC00) else Err(InvalidArgument)
    else Encoded(cp1)
  }

  /** The code point of a surrogate pair, as section 2 of RFC 2781 combines it. */
  lemma SurrogatePair(cp1: nat, cp2: nat)
    requires HighSurrogate(cp1) && LowSurrogate(cp2)
    ensures var cp := cp1 * 0x400 + cp2 - 0x35FDC00;
      0x10000 <= cp <= 0x10FFFF && cp == 0x10000 + (cp1 - 0xD800) * 0x400 + (cp2 - 0xDC00)
  {
  }

  /** A string that is exactly one character. */
  predicate SingleChar(s: string) {
    s != [] && CharLength(s) == |s|
  }

  lemma SingleCharIsWellFormed(s: string)
    requires SingleChar(s)
    ensures WellFormed(s)
  {
    assert s[|s|..] == [];
  }

  lemma EncodedTwoBytes(cp: nat)
    requires 0x80 <= cp <= 0x7ff
    ensures Encoded(cp).Ok? && SingleChar(Encoded(cp).value) && CodePoint(Encoded(cp).value) == cp
  {
    var y, x := cp / 0x40, cp % 0x40;
    assert y % 0x20 == y && 2 <= y;
  }

  lemma EncodedThreeBytes(cp: nat)
    requires 0x800 <= cp <= 0xffff && !HighSurrogate(cp) && !LowSurrogate(cp)
    ensures Encoded(cp).Ok? && SingleChar(Encoded(cp).value) && CodePoint(Encoded(cp).value) == cp
  {
    var z, y, x := cp / 0x1000, cp / 0x40 % 0x40, cp % 0x40;
    assert cp == z * 0x1000 + y * 0x40 + x && z < 0x10;
    assert z % 0x10 == z;
    assert z == 0 ==> y >= 0x20;
    assert z == 0xD ==> y < 0x20;
  }

  lemma EncodedFourBytes(cp: nat)
    requires 0x10000 <= cp <= 0x10ffff
    ensures Encoded(cp).Ok? && SingleChar(Encoded(cp).value) && CodePoint(Encoded(cp).value) == cp
  {
    var w, z, y, x := cp / 0x40000, cp / 0x1000 % 0x40, cp / 0x40 % 0x40, cp % 0x40;
    assert cp == w * 0x40000 + z * 0x1000 + y * 0x40 + x by {
      assert cp / 0x40 == cp / 0x1000 * 0x40 + y;
      assert cp / 0x1000 == w * 0x40 + z;
    }
    assert w <= 4 && w % 8 == w;
    assert w == 0 ==> z >= 0x10;
    assert w == 4 ==> z < 0x10;
  }

  /** What is encoded is one well-formed character, from which the code point can be read back. */
  lemma EncodedIsWellFormed(cp: nat)
    requires cp <= 0x10FFFF && !HighSurrogate(cp) && !LowSurrogate(cp)
    ensures Encoded(cp).Ok? && SingleChar(Encoded(cp).value) && CodePoint(Encoded(cp).value) == cp
    ensures WellFormed(Encoded(cp).value)
  {
    if 0xffff < cp {
      EncodedFourBytes(cp);
    } else if 0x7ff < cp {
      EncodedThreeBytes(cp);
    } else if 0x80 <= cp {
      EncodedTwoBytes(cp);
    }
    SingleCharIsWellFormed(Encoded(cp).value);
  }

  /** The code point of a UTF-8 character: the free bits of its bytes. */
  function CodePoint(s: string): int
    requires CharLength(s) > 0
  {
    match CharLength(s)
    case 1 => s[0] as int
    case 2 => (s[0] as int - 0xC0) * 0x40 + (s[1] as int - 0x80)
    case 3 => (s[0] as int - 0xE0) * 0x1000 + (s[1] as int - 0x80) * 0x40 + (s[2] as int - 0x80)
    case _ => (s[0] as int - 0xF0) * 0x40000 + (s[1] as int - 0x80) * 0x1000 + (s[2] as int - 0x80) * 0x40
              + (s[3] as int - 0x80)
  }

  // ----- the text between the quotes -----

  /** The letters that may follow a backslash, other than `u`, and what they stand for. */
  function SimpleEscape(c: char): Option<char> {
    match c
    case 't' => Some('\t')
    case 'b' => Some(8 as char)
    case 'f' => Some(12 as char)
    case 'n' => Some('\n')
    case 'r' => Some('\r')
    case '\\' => Some('\\')
    case '/' => Some('/')
    case '"' => Some('"')
    case _ => None
  }

  /** The length of the escape sequence a text starts with; 0 if it is not a legal one. */
  function EscapeLength(s: string): (n: nat)
    ensures n <= |s|
  {
    if |s| < 2 || s[0] != '\\' then 0
    else if SimpleEscape(s[1]).Some? then 2
    else if s[1] == 'u' && FourHex(s[2..]) then 6
    else 0
  }

  /** Every backslash starts a legal escape sequence. */
  predicate WellEscaped(s: string)
    decreases |s|
  {
    if s == [] then true
    else if s[0] == '\\' then EscapeLength(s) > 0 && WellEscaped(s[EscapeLength(s)..])
    else WellEscaped(s[1..])
  }

  /** The length of what may stand for one character of a string: a legal escape, or a well-formed
      UTF-8 character that is no control character, quote or backslash. */
  function UnitLength(s: string): (n: nat)
    ensures n <= |s|
  {
    if s == [] || s[0] as int < 0x20 || s[0] == '"' then 0
    else if s[0] == '\\' then EscapeLength(s)
    else CharLength(s)
  }

  /** The text between the quotes of a string literal. */
  predicate StringBody(s: string)
    decreases |s|
  {
    s == [] || (UnitLength(s) > 0 && StringBody(s[UnitLength(s)..]))
  }

  // ----- get_string -----

  /** The character(s) a text between quotes stands for. */
  function Decoded(s: string): Result<string>
    requires WellEscaped(s)
    decreases |s|
  {
    if s == [] then Ok([])
    else if s[0] != '\\' then
      var rest :- Decoded(s[1..]);
      Ok([s[0]] + rest)
    else if s[1] != 'u' then
      var rest :- Decoded(s[2..]);
      Ok([SimpleEscape(s[1]).value] + rest)
    else
      DecodedUnicode(s)
  }

  /** The case of `\u`, which takes two escapes for a surrogate pair. */
  function DecodedUnicode(s: string): Result<string>
    requires s != [] && s[0] == '\\' && WellEscaped(s) && s[1] == 'u'
    decreases |s|, 0
  {
    var cp := Hex4(s[2..]);
    if HighSurrogate(cp) then
      if |s| < 8 || s[6] != '\\' || s[7] != 'u' then Err(InvalidArgument)
      else
        assert WellEscaped(s[6..]) && FourHex(s[6..][2..]) && s[6..][2..] == s[8..];
        var c :- ToUnicode(cp, Hex4(s[8..]));
        assert s[6..][6..] == s[12..];
        var rest :- Decoded(s[12..]);
        Ok(c + rest)
    else if LowSurrogate(cp) then Err(InvalidArgument)
    else
      var c :- ToUnicode(cp, 0);
      var rest :- Decoded(s[6..]);
      Ok(c + rest)
  }

  lemma ContinuesFurther(whole: Result<string>, done: string, c: string, before: Result<string>, after: Result<string>)
    requires Continues(whole, done, before)
    requires before == if after.Ok? then Ok(c + after.value) else after
    ensures Continues(whole, done + c, after)
  {
    if after.Ok? {
      assert done + (c + after.value) == done + c + after.value;
    }
  }

  /** The text between the quotes of a lexeme. */
  function Body(lexeme: string): string
    requires |lexeme| >= 2
  {
    lexeme[1..|lexeme| - 1]
  }

  /** An escape that follows `\\uXXXX` is complete as well. */
  lemma PairIsComplete(s: string)
    requires WellEscaped(s) && |s| >= 8 && s[0] == '\\' && s[1] == 'u' && s[6] == '\\' && s[7] == 'u'
    ensures |s| >= 12 && FourHex(s[2..]) && FourHex(s[8..]) && WellEscaped(s[12..])
  {
    var t := s[6..];
    assert WellEscaped(t) && t[2..] == s[8..] && t[6..] == s[12..];
  }

  /** Putting a decoded character before the rest. */
  function Prepended(c: Result<string>, rest: Result<string>): Result<string> {
    if c.Err? then c else if rest.Err? then rest else Ok(c.value + rest.value)
  }

  lemma DecodedNothing()
    ensures WellEscaped("") && Decoded("") == Ok("")
  {
  }

  /** Decoding goes on after a byte that is no backslash. */
  lemma DecodedPlain(s: string)
    requires s != "" && s[0] != '\\'
    ensures WellEscaped(s) <==> WellEscaped(s[1..])
    ensures WellEscaped(s) ==> Decoded(s) == Prepended(Ok([s[0]]), Decoded(s[1..]))
  {
    hide DecodedUnicode;
  }

  /** Decoding goes on after a backslash and a letter other than `u`. */
  lemma DecodedSimple(s: string)
    requires WellEscaped(s) && s != "" && s[0] == '\\'
    ensures |s| >= 2
    ensures s[1] != 'u' ==> SimpleEscape(s[1]).Some? && WellEscaped(s[2..])
    ensures s[1] != 'u' ==> Decoded(s) == Prepended(Ok([SimpleEscape(s[1]).value]), Decoded(s[2..]))
  {
    hide DecodedUnicode;
  }

  lemma UnicodeIsComplete(s: string)
    requires WellEscaped(s) && s != "" && s[0] == '\\' && s[1] == 'u'
    ensures |s| >= 6 && FourHex(s[2..]) && WellEscaped(s[6..]) && Decoded(s) == DecodedUnicode(s)
  {
    hide DecodedUnicode;
  }

  /** Decoding goes on after one escape of a code point, or after two for a surrogate pair. */
  lemma DecodedUnicodeStep(s: string)
    requires WellEscaped(s) && s != "" && s[0] == '\\' && s[1] == 'u'
    ensures |s| >= 6 && FourHex(s[2..]) && WellEscaped(s[6..])
    ensures var cp := Hex4(s[2..]);
      if HighSurrogate(cp) then
        if |s| < 8 || s[6] != '\\' || s[7] != 'u' then Decoded(s) == Err(InvalidArgument)
        else |s| >= 12 && FourHex(s[8..]) && WellEscaped(s[12..])
             && Decoded(s) == Prepended(ToUnicode(cp, Hex4(s[8..])), Decoded(s[12..]))
      else if LowSurrogate(cp) then Decoded(s) == Err(InvalidArgument)
      else Decoded(s) == Prepended(ToUnicode(cp, 0), Decoded(s[6..]))
  {
    UnicodeIsComplete(s);
    hide Hex4, ToUnicode, Decoded, WellEscaped, FourHex;
    if HighSurrogate(Hex4(s[2..])) && |s| >= 8 && s[6] == '\\' && s[7] == 'u' {
      PairIsComplete(s);
    }
  }

  /** `get_string`: the characters between the quotes of a string token, escapes replaced. */
  method GetString(lexeme: string) returns (r: Result<string>)
    requires |lexeme| >= 2 && WellEscaped(Body(lexeme)) && lexeme[|lexeme| - 1] == '"'
    ensures r == Decoded(Body(lexeme))
  {
    hide Decoded, DecodedUnicode, WellEscaped, ToUnicode, Hex4, SimpleEscape, FourHex;
    var result := "";
    var last := |lexeme| - 1;
    var i := 1;
    ghost var whole := Decoded(Body(lexeme));
    while i < last
      invariant 1 <= i <= last && WellEscaped(lexeme[i..last])
      invariant Continues(whole, result, Decoded(lexeme[i..last]))
    {
      ghost var rest := lexeme[i..last];
      if lexeme[i] == '\\' {
        DecodedSimple(rest);
        i := i + 1;
        if lexeme[i] == 'u' {
          DecodedUnicodeStep(rest);
          Hex4Prefix(rest[2..], lexeme[i + 1..]);
          var cp := Hex4(lexeme[i + 1..]);
          if HighSurrogate(cp) {
            if i + 6 >= |lexeme| || lexeme[i + 5] != '\\' || lexeme[i + 6] != 'u' {
              return Err(InvalidArgument);
            }
            assert lexeme[last] == '"' && i + 6 < last;
            assert rest[6] == lexeme[i + 5] && rest[7] == lexeme[i + 6];
            Hex4Prefix(rest[8..], lexeme[i + 7..]);
            var c :- ToUnicode(cp, Hex4(lexeme[i + 7..]));
            assert rest[12..] == lexeme[i + 11..last];
            ContinuesFurther(whole, result, c, Decoded(rest), Decoded(rest[12..]));
            result := result + c;
            i := i + 10;
          } else if LowSurrogate(cp) {
            return Err(InvalidArgument);
          } else {
            var c :- ToUnicode(cp, 0);
            assert rest[6..] == lexeme[i + 5..last];
            ContinuesFurther(whole, result, c, Decoded(rest), Decoded(rest[6..]));
            result := result + c;
            i := i + 4;
          }
        } else {
          var c := [SimpleEscape(lexeme[i]).value];
          assert rest[2..] == lexeme[i + 1..last];
          ContinuesFurther(whole, result, c, Decoded(rest), Decoded(rest[2..]));
          result := result + c;
        }
      } else {
        DecodedPlain(rest);
        assert rest[1..] == lexeme[i + 1..last];
        ContinuesFurther(whole, result, [lexeme[i]], Decoded(rest), Decoded(rest[1..]));
        result := result + [lexeme[i]];
      }
      i := i + 1;
    }
    assert lexeme[i..last] == "" && result + "" == result;
    DecodedNothing();
    return Ok(result);
  }

  // ----- what get_string returns -----

  lemma {:induction false} StringBodyIsWellEscaped(s: string)
    requires StringBody(s)
    ensures WellEscaped(s)
    decreases |s|
  {
    if s != [] {
      var n := UnitLength(s);
      StringBodyIsWellEscaped(s[n..]);
      if s[0] != '\\' {
        PlainBytes(s, n);
      }
    }
  }

  /** Bytes without a backslash in front of well-escaped text. */
  lemma {:induction false} PlainBytes(s: string, n: nat)
    requires n <= |s| && WellEscaped(s[n..]) && forall i | 0 <= i < n :: s[i] != '\\'
    ensures WellEscaped(s)
    ensures Decoded(s) == Prepended(Ok(s[..n]), Decoded(s[n..]))
    decreases n
  {
    hide Decoded, WellEscaped;
    var rest := Decoded(s[n..]);
    if n == 0 {
      assert s[n..] == s;
      assert rest.Ok? ==> [] + rest.value == rest.value;
    } else {
      var t := s[1..];
      assert t[n - 1..] == s[n..] && t[..n - 1] == s[1..n];
      PlainBytes(t, n - 1);
      DecodedPlain(s);
      assert rest.Ok? ==> [s[0]] + (s[1..n] + rest.value) == s[..n] + rest.value;
    }
  }

  /** `to_unicode` on what `get_string` passes to it: one well-formed character, or the wrong second
      half of a pair.  Code points above 0x10FFFF cannot occur. */
  lemma ToUnicodeOfEscape(cp1: nat, cp2: nat)
    requires cp1 < 0x1_0000 && !LowSurrogate(cp1)
    ensures ToUnicode(cp1, cp2).Ok? <==> (HighSurrogate(cp1) ==> LowSurrogate(cp2))
    ensures ToUnicode(cp1, cp2).Ok? ==> SingleChar(ToUnicode(cp1, cp2).value) && WellFormed(ToUnicode(cp1, cp2).value)
    ensures ToUnicode(cp1, cp2).Err? ==> ToUnicode(cp1, cp2).error == InvalidArgument
  {
    if HighSurrogate(cp1) && LowSurrogate(cp2) {
      SurrogatePair(cp1, cp2);
      EncodedIsWellFormed(cp1 * 0x400 + cp2 - 0x35FDC00);
    } else if !HighSurrogate(cp1) {
      EncodedIsWellFormed(cp1);
    }
  }

  lemma SimpleEscapeIsAscii(c: char)
    requires SimpleEscape(c).Some?
    ensures WellFormed([SimpleEscape(c).value])
  {
    var s := [SimpleEscape(c).value];
    assert CharLength(s) == 1 && s[1..] == [];
  }

  lemma PrependedWellFormed(c: Result<string>, rest: Result<string>)
    requires c.Ok? ==> WellFormed(c.value)
    requires rest.Ok? ==> WellFormed(rest.value)
    requires c.Err? ==> c.error == InvalidArgument
    requires rest.Err? ==> rest.error == InvalidArgument
    ensures var r := Prepended(c, rest); if r.Ok? then WellFormed(r.value) else r.error == InvalidArgument
  {
    if c.Ok? && rest.Ok? {
      WellFormedAppend(c.value, rest.value);
    }
  }

  /** What `get_string` returns for a token of the scanner is well-formed UTF-8, surrogate pairs
      included; otherwise it throws `std::invalid_argument`. */
  lemma {:induction false} DecodedIsWellFormed(s: string)
    requires StringBody(s)
    ensures WellEscaped(s)
    ensures if Decoded(s).Ok? then WellFormed(Decoded(s).value) else Decoded(s).error == InvalidArgument
    decreases |s|
  {
    hide Decoded, WellEscaped, DecodedUnicode, ToUnicode, CharLength, Hex4;
    StringBodyIsWellEscaped(s);
    if s == "" {
      DecodedNothing();
    } else {
      var n := UnitLength(s);
      if s[0] != '\\' {
        DecodedIsWellFormed(s[n..]);
        PlainUnit(s);
        PlainBytes(s, n);
        PrependedWellFormed(Ok(s[..n]), Decoded(s[n..]));
      } else {
        DecodedSimple(s);
        if s[1] != 'u' {
          DecodedIsWellFormed(s[2..]);
          SimpleEscapeIsAscii(s[1]);
          PrependedWellFormed(Ok([SimpleEscape(s[1]).value]), Decoded(s[2..]));
        } else {
          UnicodeIsWellFormed(s);
        }
      }
    }
  }

  /** A unit that is no escape is a character of its own and holds no backslash. */
  lemma PlainUnit(s: string)
    requires UnitLength(s) > 0 && s[0] != '\\'
    ensures var n := UnitLength(s); WellFormed(s[..n]) && forall i | 0 <= i < n :: s[i] != '\\'
  {
    var n := UnitLength(s);
    assert CharLength(s[..n]) == n && s[..n][n..] == [];
    if n > 1 {
      forall i | 0 <= i < n ensures s[i] != '\\' { MultiByteChar(s, i); }
    }
  }

  lemma {:induction false} UnicodeIsWellFormed(s: string)
    requires StringBody(s) && WellEscaped(s) && s != "" && s[0] == '\\' && |s| >= 2 && s[1] == 'u'
    ensures if Decoded(s).Ok? then WellFormed(Decoded(s).value) else Decoded(s).error == InvalidArgument
    decreases |s|, 0
  {
    hide Decoded, WellEscaped, DecodedUnicode, ToUnicode, CharLength, Hex4;
    DecodedUnicodeStep(s);
    var cp := Hex4(s[2..]);
    assert cp < 0x1_0000;
    assert UnitLength(s) == 6;
    if HighSurrogate(cp) {
      if |s| >= 8 && s[6] == '\\' && s[7] == 'u' {
        var t := s[6..];
        assert StringBody(t) && UnitLength(t) == 6 && t[6..] == s[12..];
        DecodedIsWellFormed(s[12..]);
        ToUnicodeOfEscape(cp, Hex4(s[8..]));
        PrependedWellFormed(ToUnicode(cp, Hex4(s[8..])), Decoded(s[12..]));
      }
    } else if !LowSurrogate(cp) {
      DecodedIsWellFormed(s[6..]);
      ToUnicodeOfEscape(cp, 0);
      PrependedWellFormed(ToUnicode(cp, 0), Decoded(s[6..]));
    }
  }

  // ----- when get_string throws -----

  /** What the elements of a text between quotes stand for: the number of a `\\u` escape, or nothing of interest
      for a byte or another escape. */
  function CodeUnits(s: string): seq<Option<nat>>
    requires WellEscaped(s)
    decreases |s|
  {
    if s == [] then []
    else if s[0] != '\\' then [None] + CodeUnits(s[1..])
    else if s[1] != 'u' then [None] + CodeUnits(s[2..])
    else [Some(Hex4(s[2..]))] + CodeUnits(s[6..])
  }

  predicate High(u: Option<nat>) {
    u.Some? && HighSurrogate(u.value)
  }

  predicate Low(u: Option<nat>) {
    u.Some? && LowSurrogate(u.value)
  }

  predicate PairedAt(us: seq<Option<nat>>, i: nat)
    requires i < |us|
  {
    && (High(us[i]) ==> i + 1 < |us| && Low(us[i + 1]))
    && (Low(us[i]) ==> i > 0 && High(us[i - 1]))
  }

  /** Every high surrogate is followed by a low one, and every low one follows a high one. */
  predicate WellPaired(us: seq<Option<nat>>) {
    forall i | 0 <= i < |us| :: PairedAt(us, i)
  }

  /** Behind anything but a high surrogate the rest stands on its own. */
  lemma PairedAfter(us: seq<Option<nat>>, n: nat)
    requires 0 < n <= |us| && !High(us[n - 1]) && forall i | 0 <= i < n :: PairedAt(us, i)
    ensures WellPaired(us) <==> WellPaired(us[n..])
  {
    forall i | n <= i < |us| ensures PairedAt(us, i) <==> PairedAt(us[n..], i - n) {
    }
    if WellPaired(us[n..]) {
      forall i | 0 <= i < |us| ensures PairedAt(us, i) {
        if n <= i { assert PairedAt(us[n..], i - n); }
      }
    }
    if WellPaired(us) {
      forall i | 0 <= i < |us| - n ensures PairedAt(us[n..], i) { assert PairedAt(us, i + n); }
    }
  }

  lemma UnpairedFirst(us: seq<Option<nat>>)
    requires us != [] && !PairedAt(us, 0)
    ensures !WellPaired(us)
  {
  }

  /** The code units of a text that starts with an escape of a code point. */
  lemma UnicodeUnits(s: string)
    requires WellEscaped(s) && s != "" && s[0] == '\\' && s[1] == 'u'
    ensures |s| >= 6 && FourHex(s[2..]) && WellEscaped(s[6..])
    ensures CodeUnits(s) == [Some(Hex4(s[2..]))] + CodeUnits(s[6..])
  {
    UnicodeIsComplete(s);
  }

  /** A second escape of a code point follows exactly if there is a code unit to read. */
  lemma SecondUnit(s: string)
    requires WellEscaped(s)
    ensures |s| < 2 || s[0] != '\\' || s[1] != 'u' <==> CodeUnits(s) == [] || CodeUnits(s)[0].None?
  {
  }

  /** `get_string` throws `std::invalid_argument` exactly if a surrogate escape has no partner. */
  lemma {:induction false} DecodedExactly(s: string)
    requires WellEscaped(s)
    ensures Decoded(s).Ok? <==> WellPaired(CodeUnits(s))
    ensures Decoded(s).Err? ==> Decoded(s).error == InvalidArgument
    decreases |s|
  {
    hide Decoded, DecodedUnicode, ToUnicode, Hex4, FourHex, WellPaired;
    if s == "" {
      DecodedNothing();
      NothingPaired();
    } else if s[0] != '\\' {
      DecodedPlain(s);
      DecodedExactly(s[1..]);
      PairedAfter(CodeUnits(s), 1);
    } else {
      DecodedSimple(s);
      if s[1] != 'u' {
        DecodedExactly(s[2..]);
        PairedAfter(CodeUnits(s), 1);
      } else {
        UnicodeDecodedExactly(s);
      }
    }
  }

  lemma NothingPaired()
    ensures WellPaired([])
  {
  }

  lemma {:induction false} UnicodeDecodedExactly(s: string)
    requires WellEscaped(s) && s != "" && s[0] == '\\' && |s| >= 2 && s[1] == 'u'
    ensures Decoded(s).Ok? <==> WellPaired(CodeUnits(s))
    ensures Decoded(s).Err? ==> Decoded(s).error == InvalidArgument
    decreases |s|, 0
  {
    hide Decoded, DecodedUnicode, ToUnicode, Hex4, FourHex, WellPaired, WellEscaped, CodeUnits;
    DecodedUnicodeStep(s);
    UnicodeUnits(s);
    var us, cp := CodeUnits(s), Hex4(s[2..]);
    if HighSurrogate(cp) {
      SecondUnit(s[6..]);
      if |s| < 8 || s[6] != '\\' || s[7] != 'u' {
        UnpairedFirst(us);
      } else {
        UnicodeUnits(s[6..]);
        assert s[6..][2..] == s[8..] && s[6..][6..] == s[12..];
        var next := Hex4(s[8..]);
        assert us == [Some(cp), Some(next)] + CodeUnits(s[12..]);
        ToUnicodeOfEscape(cp, next);
        if LowSurrogate(next) {
          DecodedExactly(s[12..]);
          PairedAfter(us, 2);
        } else {
          UnpairedFirst(us);
        }
      }
    } else if LowSurrogate(cp) {
      UnpairedFirst(us);
    } else {
      ToUnicodeOfEscape(cp, 0);
      DecodedExactly(s[6..]);
      PairedAfter(us, 1);
    }
  }

  // ----- escape_string -----

  function HexDigit(n: nat): char
    requires n < 16
  {
    "0123456789abcdef"[n]
  }

  /** The letter that escapes a character after a backslash. */
  function EscapeLetter(c: char): Option<char> {
    match c as int
    case 0x22 => Some('"')
    case 0x5c => Some('\\')
    case 8 => Some('b')
    case 12 => Some('f')
    case 10 => Some('n')
    case 13 => Some('r')
    case 9 => Some('t')
    case _ => None
  }

  /** How one byte is written in a string literal. */
  function EscapedChar(c: char): string {
    if EscapeLetter(c).Some? then ['\\', EscapeLetter(c).value]
    else if c as int <= 0x1f then "\\u00" + [HexDigit(c as int / 16), HexDigit(c as int % 16)]
    else [c]
  }

  function Escaped(s: string): string {
    if s == [] then [] else Escaped(s[..|s| - 1]) + EscapedChar(s[|s| - 1])
  }

  /** `extra_space`: a fold that adds 1, 5 or 0 for each byte. */
  function ExtraSpace(s: string): nat {
    if s == [] then 0
    else
      var res, c := ExtraSpace(s[..|s| - 1]), s[|s| - 1];
      if EscapeLetter(c).Some? then res + 1 else if c as int <= 0x1f then res + 5 else res
  }

  /** The space computed beforehand is exactly what the escaped text needs. */
  lemma {:induction false} ExtraSpaceIsExact(s: string)
    ensures |Escaped(s)| == |s| + ExtraSpace(s)
    ensures ExtraSpace(s) == 0 ==> Escaped(s) == s
  {
    hide EscapeLetter;
    if s != [] {
      ExtraSpaceIsExact(s[..|s| - 1]);
      assert s == s[..|s| - 1] + [s[|s| - 1]];
    }
  }

  lemma EscapedStep(s: string, k: nat)
    requires k < |s|
    ensures Escaped(s[..k + 1]) == Escaped(s[..k]) + EscapedChar(s[k])
    ensures |Escaped(s[..k + 1])| <= |Escaped(s)|
  {
    assert s[..k + 1][..k] == s[..k];
    EscapedPrefix(s, k + 1);
  }

  lemma {:induction false} EscapedPrefix(s: string, k: nat)
    requires k <= |s|
    ensures |Escaped(s[..k])| <= |Escaped(s)|
    decreases |s| - k
  {
    if k < |s| {
      EscapedPrefix(s, k + 1);
      assert s[..k + 1][..k] == s[..k];
    } else {
      assert s[..k] == s;
    }
  }

  /** `escape_string`: fills a buffer of the computed size from the left, in bounds.  The buffer is
      preset with backslashes, so the backslash of an escape is never written. */
  method EscapeString(s: string) returns (r: string)
    ensures r == Escaped(s)
  {
    hide Escaped;
    var space := ExtraSpace(s);
    ExtraSpaceIsExact(s);
    if space == 0 {
      return s;
    }
    var result := new char[|s| + space](_ => '\\');
    var pos := 0;
    assert Escaped(s[..0]) == "" by { EscapedNothing(s[..0]); }
    for k := 0 to |s|
      invariant pos == |Escaped(s[..k])| && pos <= result.Length
      invariant result[..pos] == Escaped(s[..k])
      invariant Blank(result, pos)
    {
      EscapedStep(s, k);
      pos := WriteEscaped(result, pos, s[k]);
    }
    assert s[..|s|] == s && result[..pos] == result[..];
    return result[..];
  }

  lemma EscapedNothing(s: string)
    requires s == ""
    ensures Escaped(s) == ""
  {
  }

  /** The buffer from `pos` on is untouched. */
  predicate Blank(result: array<char>, pos: nat)
    reads result
  {
    forall i | pos <= i < result.Length :: result[i] == '\\'
  }

  /** The body of that loop, for one byte. */
  method WriteEscaped(result: array<char>, pos: nat, c: char) returns (next: nat)
    requires pos + |EscapedChar(c)| <= result.Length && Blank(result, pos)
    modifies result
    ensures next == pos + |EscapedChar(c)| && Blank(result, next)
    ensures result[..next] == old(result[..pos]) + EscapedChar(c)
  {
    var letter := EscapeLetter(c);
    if letter.Some? {
      next := WriteCode(result, pos, [letter.value]);
    } else if c as int <= 0x1f {
      next := WriteCode(result, pos, "u00" + [HexDigit(c as int / 16), HexDigit(c as int % 16)]);
    } else {
      result[pos] := c;
      next := pos + 1;
      assert result[..next] == old(result[..pos]) + [c];
    }
  }

  /** Writing the characters of an escape after its backslash. */
  method WriteCode(result: array<char>, start: nat, code: string) returns (pos: nat)
    requires start + 1 + |code| <= result.Length && Blank(result, start)
    modifies result
    ensures pos == start + 1 + |code| && Blank(result, pos)
    ensures result[..pos] == old(result[..start]) + ("\\" + code)
  {
    pos := start;
    for i := 0 to |code|
      invariant pos == start + i && Blank(result, pos + 1)
      invariant forall k | 0 <= k < start :: result[k] == old(result[k])
      invariant result[start] == '\\' && forall k | 0 <= k < i :: result[start + 1 + k] == code[k]
    {
      pos := pos + 1;
      result[pos] := code[i];
    }
    pos := pos + 1;
    assert result[..start] == old(result[..start]);
    assert result[start..pos] == "\\" + code;
    assert result[..pos] == result[..start] + result[start..pos];
  }

  // ----- the round trip -----

  lemma HexDigitValue(n: nat)
    requires n < 16
    ensures IsHex(HexDigit(n)) && HexValue(HexDigit(n)) == n
  {
  }

  /** One escaped byte in front of well-escaped text decodes to that byte. */
  lemma EscapedCharDecodes(c: char, rest: string)
    requires WellEscaped(rest)
    ensures WellEscaped(EscapedChar(c) + rest)
    ensures Decoded(EscapedChar(c) + rest) == Prepended(Ok([c]), Decoded(rest))
  {
    var e := EscapedChar(c);
    var s := e + rest;
    assert s[|e|..] == rest;
    hide Decoded, DecodedUnicode, CharLength;
    if EscapeLetter(c).Some? {
      assert SimpleEscape(s[1]) == Some(c) && s[1] != 'u';
      assert WellEscaped(s);
      DecodedSimple(s);
    } else if c as int <= 0x1f {
      var n := c as int;
      HexDigitValue(n / 16);
      HexDigitValue(n % 16);
      var h := s[2..];
      assert h[0] == '0' && h[1] == '0' && h[2] == HexDigit(n / 16) && h[3] == HexDigit(n % 16);
      assert FourHex(h) && Hex4(h) == n;
      assert s[0] == '\\' && s[1] == 'u';
      assert WellEscaped(s);
      DecodedUnicodeStep(s);
      assert ToUnicode(n, 0) == Ok([c]);
    } else {
      DecodedPlain(s);
    }
  }

  lemma {:induction false} EscapedAppend(a: string, b: string)
    ensures Escaped(a + b) == Escaped(a) + Escaped(b)
    decreases |b|
  {
    hide EscapedChar;
    if b == [] {
      assert a + b == a;
    } else {
      var front, c := b[..|b| - 1], b[|b| - 1];
      EscapedAppend(a, front);
      assert (a + b)[..|a + b| - 1] == a + front;
      assert Escaped(a) + Escaped(front) + EscapedChar(c) == Escaped(a) + (Escaped(front) + EscapedChar(c));
    }
  }

  lemma EscapedCons(s: string)
    requires s != []
    ensures Escaped(s) == EscapedChar(s[0]) + Escaped(s[1..])
  {
    assert s == s[..1] + s[1..] && s[..1][..0] == [];
    EscapedAppend(s[..1], s[1..]);
  }

  /** `get_string` of a quoted `escape_string(s)` is `s`, for every byte string. */
  lemma {:induction false} DecodeEscaped(s: string)
    ensures WellEscaped(Escaped(s)) && Decoded(Escaped(s)) == Ok(s)
    decreases |s|
  {
    if s != [] {
      EscapedCons(s);
      DecodeEscaped(s[1..]);
      EscapedCharDecodes(s[0], Escaped(s[1..]));
      assert s == [s[0]] + s[1..];
    }
  }

  /** A byte below 0x80 is written as one unit. */
  lemma EscapedAsciiUnit(c: char, rest: string)
    requires c as int < 0x80
    ensures UnitLength(EscapedChar(c) + rest) == |EscapedChar(c)|
  {
    var e := EscapedChar(c);
    var s := e + rest;
    if EscapeLetter(c).Some? {
      assert SimpleEscape(s[1]) == Some(c);
    } else if c as int <= 0x1f {
      var n := c as int;
      HexDigitValue(n / 16);
      HexDigitValue(n % 16);
      var h := s[2..];
      assert h[0] == '0' && h[1] == '0' && h[2] == HexDigit(n / 16) && h[3] == HexDigit(n % 16);
      assert FourHex(h) && s[1] == 'u';
    }
  }

  /** Bytes above 0x7F are written as they are. */
  lemma {:induction false} EscapedHighBytes(s: string, n: nat)
    requires n <= |s| && forall i | 0 <= i < n :: s[i] as int >= 0x80
    ensures Escaped(s) == s[..n] + Escaped(s[n..])
    decreases n
  {
    hide Escaped;
    if n > 0 {
      EscapedCons(s);
      assert s[0] as int >= 0x80;
      var t, rest := s[1..], Escaped(s[n..]);
      EscapedHighBytes(t, n - 1);
      assert t[n - 1..] == s[n..];
      assert [s[0]] + (t[..n - 1] + rest) == s[..n] + rest;
    } else {
      assert s[0..] == s;
    }
  }

  lemma StringBodyStep(e: string, n: nat)
    requires 0 < n == UnitLength(e) && StringBody(e[n..])
    ensures StringBody(e)
  {
    hide UnitLength;
  }

  /** One character in front of the inside of a string. */
  lemma EscapedCharIsUnit(s: string)
    requires CharLength(s) > 0 && StringBody(Escaped(s[CharLength(s)..]))
    ensures StringBody(Escaped(s))
  {
    var n := CharLength(s);
    var rest, e := Escaped(s[n..]), Escaped(s);
    if n == 1 {
      assert s[0] as int < 0x80;
      hide *;
      EscapedCons(s);
      EscapedAsciiUnit(s[0], rest);
      n := |EscapedChar(s[0])|;
      assert e[n..] == rest;
      EscapedCharNotEmpty(s[0]);
      StringBodyStep(e, n);
    } else {
      forall i | 0 <= i < n ensures s[i] as int >= 0x80 { MultiByteChar(s, i); }
      hide *;
      EscapedHighBytes(s, n);
      assert e[n..] == rest;
      HighUnit(s, rest);
      StringBodyStep(e, n);
    }
  }

  lemma EscapedCharNotEmpty(c: char)
    ensures |EscapedChar(c)| > 0
  {
  }

  lemma HighUnit(s: string, rest: string)
    requires CharLength(s) > 1
    ensures UnitLength(s[..CharLength(s)] + rest) == CharLength(s)
  {
    var n := CharLength(s);
    assert CharLength(s[..n]) == n;
    CharLengthAppend(s[..n], rest);
    MultiByteChar(s, 0);
    assert (s[..n] + rest)[0] == s[0];
    hide CharLength;
  }

  /** The escaped form of well-formed UTF-8 is what the scanner takes for the inside of a string. */
  lemma {:induction false} EscapedIsStringBody(s: string)
    requires WellFormed(s)
    ensures StringBody(Escaped(s))
    decreases |s|
  {
    if s != [] {
      hide CharLength, StringBody;
      EscapedIsStringBody(s[CharLength(s)..]);
      EscapedCharIsUnit(s);
    }
  }
}
