/** What the escapes of a string literal mean, and what is printed for a byte. */
module JsonStringLaw {
  import opened JsonString
  import opened Outcomes
  import opened Utf8

  // ----- \u escapes -----

  /** The hexadecimal digits, in lower and in upper case, and what they stand for. */
  predicate Spells(c: char, v: nat) {
    v < 16 && (c == "0123456789abcdef"[v] || c == "0123456789ABCDEF"[v])
  }

  lemma HexExactly(c: char, v: nat)
    ensures IsHex(c) && HexValue(c) == v <==> Spells(c, v)
  {
    assert forall i | 0 <= i < 10 :: "0123456789abcdef"[i] == "0123456789ABCDEF"[i] == ('0' as int + i) as char;
    assert forall i | 10 <= i < 16 :: "0123456789abcdef"[i] == ('a' as int + i - 10) as char;
    assert forall i | 10 <= i < 16 :: "0123456789ABCDEF"[i] == ('A' as int + i - 10) as char;
  }

  /** Four digits that spell a number, the most significant first. */
  predicate Spelling(digits: string, cp: nat) {
    && |digits| == 4 && cp < 0x1_0000
    && Spells(digits[0], cp / 0x1000) && Spells(digits[1], cp / 0x100 % 0x10)
    && Spells(digits[2], cp / 0x10 % 0x10) && Spells(digits[3], cp % 0x10)
  }

  lemma SpellingIsRead(digits: string, cp: nat, rest: string)
    requires Spelling(digits, cp)
    ensures FourHex(digits + rest) && Hex4(digits + rest) == cp
  {
    hide Spells, HexValue, IsHex;
    var s := digits + rest;
    assert forall i | 0 <= i < 4 :: s[i] == digits[i];
    var a, b, c, d := cp / 0x1000, cp / 0x100 % 0x10, cp / 0x10 % 0x10, cp % 0x10;
    HexExactly(s[0], a);
    HexExactly(s[1], b);
    HexExactly(s[2], c);
    HexExactly(s[3], d);
    FourDigits(cp, a, b, c, d);
  }

  lemma FourDigits(cp: nat, a: nat, b: nat, c: nat, d: nat)
    requires a == cp / 0x1000 && b == cp / 0x100 % 0x10 && c == cp / 0x10 % 0x10 && d == cp % 0x10
    ensures cp == ((a * 16 + b) * 16 + c) * 16 + d
  {
    assert cp / 0x10 / 0x10 == cp / 0x100 && cp / 0x100 / 0x10 == cp / 0x1000;
  }

  /** An escape of a code point, in front of well-escaped text. */
  lemma UnicodeText(digits: string, cp: nat, rest: string)
    requires Spelling(digits, cp) && WellEscaped(rest)
    ensures var s := "\\u" + digits + rest;
      && WellEscaped(s) && |s| >= 6 && s[0] == '\\' && s[1] == 'u' && s[2..] == digits + rest && s[6..] == rest
      && FourHex(s[2..]) && Hex4(s[2..]) == cp
  {
    hide Spelling, Hex4, FourHex;
    var s := "\\u" + digits + rest;
    SpellingLength(digits, cp);
    SpellingIsRead(digits, cp, rest);
    assert s[0] == '\\' && s[1] == 'u' && s[2..] == digits + rest && s[6..] == rest;
    assert EscapeLength(s) == 6;
  }

  lemma SpellingLength(digits: string, cp: nat)
    requires Spelling(digits, cp)
    ensures |digits| == 4
  {
  }

  /** In any spelling, the escape of a code point that is no surrogate is read as the one character with that
      code point. */
  lemma CodePointIsRead(digits: string, cp: nat, rest: string) returns (c: string)
    requires Spelling(digits, cp) && !HighSurrogate(cp) && !LowSurrogate(cp) && WellEscaped(rest)
    ensures SingleChar(c) && CodePoint(c) == cp
    ensures var s := "\\u" + digits + rest; WellEscaped(s) && Decoded(s) == Prepended(Ok(c), Decoded(rest))
  {
    hide Spelling, Hex4, FourHex, Decoded, WellEscaped, Encoded, CodePoint;
    var s := "\\u" + digits + rest;
    UnicodeText(digits, cp, rest);
    SpellingBound(digits, cp);
    DecodedUnicodeStep(s);
    EncodedIsWellFormed(cp);
    c := Encoded(cp).value;
  }

  lemma SpellingBound(digits: string, cp: nat)
    requires Spelling(digits, cp)
    ensures cp < 0x1_0000
  {
  }

  /** Two escapes of a surrogate pair are read as the one character whose code point the pair encodes. */
  lemma PairIsRead(high: string, low: string, cp: nat, rest: string) returns (c: string)
    requires 0x1_0000 <= cp <= 0x10_FFFF && WellEscaped(rest)
    requires Spelling(high, 0xD800 + (cp - 0x1_0000) / 0x400) && Spelling(low, 0xDC00 + (cp - 0x1_0000) % 0x400)
    ensures SingleChar(c) && CodePoint(c) == cp
    ensures var s := "\\u" + high + ("\\u" + low + rest);
      WellEscaped(s) && Decoded(s) == Prepended(Ok(c), Decoded(rest))
  {
    hide Spelling, Hex4, FourHex, Decoded, WellEscaped, Encoded, CodePoint, SingleChar;
    var h, l := 0xD800 + (cp - 0x1_0000) / 0x400, 0xDC00 + (cp - 0x1_0000) % 0x400;
    var t := "\\u" + low + rest;
    var s := "\\u" + high + t;
    UnicodeText(low, l, rest);
    UnicodeText(high, h, t);
    SpellingLength(high, h);
    assert s[6..] == t && s[6] == t[0] && s[7] == t[1];
    assert s[8..] == t[2..] && s[12..] == t[6..] == rest;
    DecodedUnicodeStep(s);
    SurrogatePair(h, l);
    EncodedIsWellFormed(cp);
    c := Encoded(cp).value;
  }

  // ----- the other escapes -----

  /** The eight escapes of one letter. */
  lemma SimpleEscapesAreRead(rest: string)
    requires WellEscaped(rest)
    ensures WellEscaped("\\\"" + rest) && Decoded("\\\"" + rest) == Prepended(Ok("\""), Decoded(rest))
    ensures WellEscaped("\\\\" + rest) && Decoded("\\\\" + rest) == Prepended(Ok("\\"), Decoded(rest))
    ensures WellEscaped("\\/" + rest) && Decoded("\\/" + rest) == Prepended(Ok("/"), Decoded(rest))
    ensures WellEscaped("\\b" + rest) && Decoded("\\b" + rest) == Prepended(Ok([8 as char]), Decoded(rest))
    ensures WellEscaped("\\f" + rest) && Decoded("\\f" + rest) == Prepended(Ok([12 as char]), Decoded(rest))
    ensures WellEscaped("\\n" + rest) && Decoded("\\n" + rest) == Prepended(Ok([10 as char]), Decoded(rest))
    ensures WellEscaped("\\r" + rest) && Decoded("\\r" + rest) == Prepended(Ok([13 as char]), Decoded(rest))
    ensures WellEscaped("\\t" + rest) && Decoded("\\t" + rest) == Prepended(Ok([9 as char]), Decoded(rest))
  {
    hide Decoded, WellEscaped;
    LetterIsRead('"', '"', rest);
    LetterIsRead('\\', '\\', rest);
    LetterIsRead('/', '/', rest);
    LetterIsRead('b', 8 as char, rest);
    LetterIsRead('f', 12 as char, rest);
    LetterIsRead('n', 10 as char, rest);
    LetterIsRead('r', 13 as char, rest);
    LetterIsRead('t', 9 as char, rest);
  }

  lemma LetterIsRead(letter: char, meaning: char, rest: string)
    requires SimpleEscape(letter) == Some(meaning) && letter != 'u' && WellEscaped(rest)
    ensures WellEscaped(['\\', letter] + rest)
    ensures Decoded(['\\', letter] + rest) == Prepended(Ok([meaning]), Decoded(rest))
  {
    var s := ['\\', letter] + rest;
    assert s[2..] == rest && EscapeLength(s) == 2;
    hide Decoded, WellEscaped, SimpleEscape;
    EscapeIsWell(s);
    DecodedSimple(s);
  }

  lemma EscapeIsWell(s: string)
    requires EscapeLength(s) > 0 && WellEscaped(s[EscapeLength(s)..])
    ensures WellEscaped(s)
  {
  }

  predicate NoHexDigit(c: char) {
    forall v | 0 <= v < 16 :: !Spells(c, v)
  }

  /** There are no other escapes. */
  lemma OtherEscapesAreNone(s: string)
    requires s != "" && s[0] == '\\'
    requires |s| < 2 || s[1] !in {'"', '\\', '/', 'b', 'f', 'n', 'r', 't'}
    requires |s| < 6 || s[1] != 'u' || exists i :: 2 <= i < 6 && NoHexDigit(s[i])
    ensures !WellEscaped(s) && UnitLength(s) == 0
  {
    if |s| >= 6 && s[1] == 'u' {
      var i :| 2 <= i < 6 && NoHexDigit(s[i]);
      if IsHex(s[i]) { HexExactly(s[i], HexValue(s[i])); }
      assert s[2..][i - 2] == s[i];
    }
  }

  // ----- what may stand in a string literal -----

  /** No control characters, and a quote only behind a backslash. */
  lemma {:induction false} StringBodyBytes(s: string, i: nat)
    requires StringBody(s) && i < |s|
    ensures s[i] as int >= 0x20 && (s[i] == '"' ==> i > 0 && s[i - 1] == '\\')
    decreases |s|
  {
    var n := UnitLength(s);
    if i >= n {
      StringBodyBytes(s[n..], i - n);
    } else if s[0] == '\\' {
      if n == 6 && i >= 2 { assert s[i] == s[2..][i - 2]; }
    } else if n > 1 {
      hide UnitLength;
      MultiByte(s, i);
    }
  }

  lemma MultiByte(s: string, i: nat)
    requires 1 < UnitLength(s) && s[0] != '\\' && i < UnitLength(s)
    ensures s[i] as int >= 0x80
  {
    MultiByteChar(s, i);
  }

  /** Any other ASCII character may stand for itself. */
  lemma PlainCharIsRead(c: char, rest: string)
    requires 0x20 <= c as int < 0x80 && c != '"' && c != '\\'
    ensures UnitLength([c] + rest) == 1
    ensures StringBody([c] + rest) <==> StringBody(rest)
    ensures WellEscaped([c] + rest) <==> WellEscaped(rest)
    ensures WellEscaped(rest) ==> Decoded([c] + rest) == Prepended(Ok([c]), Decoded(rest))
  {
    var s := [c] + rest;
    assert s[1..] == rest;
    DecodedPlain(s);
  }

  /** So may any other well-formed character. */
  lemma PlainCharacterIsUnit(c: string, rest: string)
    requires SingleChar(c) && c[0] as int >= 0x80
    ensures UnitLength(c + rest) == |c|
  {
    CharLengthAppend(c, rest);
  }

  /** UTF-8 is unambiguous: a well-formed character is the encoding of its code point, which is no surrogate. */
  lemma CharacterIsEncoded(c: string)
    requires SingleChar(c) && forall i | 0 <= i < |c| :: c[i] as int < 256
    ensures var cp := CodePoint(c);
      0 <= cp <= 0x10_FFFF && !HighSurrogate(cp) && !LowSurrogate(cp) && Encoded(cp) == Ok(c)
  {
    match |c|
    case 1 => assert c == [c[0]];
    case 2 => TwoBytes(c);
    case 3 => ThreeBytes(c);
    case _ => FourBytes(c);
  }

  lemma TwoBytes(c: string)
    requires SingleChar(c) && |c| == 2
    ensures var cp := CodePoint(c); 0x80 <= cp <= 0x7FF && Encoded(cp) == Ok(c)
  {
    var y, x := c[0] as int - 0xC0, c[1] as int - 0x80;
    assert 0 <= x < 0x40 && 2 <= y < 0x20 && CodePoint(c) == y * 0x40 + x;
    assert c == [c[0], c[1]];
  }

  lemma ThreeBytes(c: string)
    requires SingleChar(c) && |c| == 3
    ensures var cp := CodePoint(c);
      0x800 <= cp <= 0xFFFF && !HighSurrogate(cp) && !LowSurrogate(cp) && Encoded(cp) == Ok(c)
  {
    var z, y, x := c[0] as int - 0xE0, c[1] as int - 0x80, c[2] as int - 0x80;
    var cp := CodePoint(c);
    assert 0 <= x < 0x40 && 0 <= y < 0x40 && 0 <= z < 0x10 && cp == z * 0x1000 + y * 0x40 + x;
    assert cp / 0x1000 == z && cp / 0x40 % 0x40 == y && cp % 0x40 == x;
    assert c == [c[0], c[1], c[2]];
  }

  lemma FourBytes(c: string)
    requires SingleChar(c) && |c| == 4
    ensures var cp := CodePoint(c); 0x1_0000 <= cp <= 0x10_FFFF && Encoded(cp) == Ok(c)
  {
    var w, z, y, x := c[0] as int - 0xF0, c[1] as int - 0x80, c[2] as int - 0x80, c[3] as int - 0x80;
    var cp := CodePoint(c);
    assert 0 <= x < 0x40 && 0 <= y < 0x40 && 0 <= z < 0x40 && 0 <= w <= 4;
    assert cp == w * 0x40000 + z * 0x1000 + y * 0x40 + x;
    FourGroups(cp, w, z, y, x);
    assert w == 0 ==> z >= 0x10;
    assert w == 4 ==> z < 0x10;
    hide CharLength;
    assert c == [c[0], c[1], c[2], c[3]];
  }

  lemma FourGroups(cp: int, w: nat, z: nat, y: nat, x: nat)
    requires z < 0x40 && y < 0x40 && x < 0x40 && cp == w * 0x40000 + z * 0x1000 + y * 0x40 + x
    ensures cp / 0x40000 == w && cp / 0x1000 % 0x40 == z && cp / 0x40 % 0x40 == y && cp % 0x40 == x
  {
    assert cp == ((w * 0x40 + z) * 0x40 + y) * 0x40 + x;
    assert cp / 0x40 == (w * 0x40 + z) * 0x40 + y;
    assert cp / 0x1000 == w * 0x40 + z;
  }

  // ----- what is printed -----

  /** Seven characters have an escape of their own; whatever is no control character is printed as it is. */
  lemma PrintedChar(c: char)
    ensures EscapedChar('"') == "\\\"" && EscapedChar('\\') == "\\\\"
    ensures EscapedChar(8 as char) == "\\b" && EscapedChar(9 as char) == "\\t" && EscapedChar(10 as char) == "\\n"
    ensures EscapedChar(12 as char) == "\\f" && EscapedChar(13 as char) == "\\r"
    ensures c as int >= 0x20 && c != '"' && c != '\\' ==> EscapedChar(c) == [c]
  {
    hide HexDigit;
  }

  /** The other control characters are printed as `\u` escapes, in lower case. */
  lemma PrintedControl(c: char)
    requires c as int < 0x20 && c as int !in {8, 9, 10, 12, 13}
    ensures |EscapedChar(c)| == 6 && EscapedChar(c)[..2] == "\\u" && Spelling(EscapedChar(c)[2..], c as int)
    ensures forall i | 2 <= i < 6 :: !('A' <= EscapedChar(c)[i] <= 'F')
  {
    var v := c as int;
    var a, b := HexDigit(v / 16), HexDigit(v % 16);
    assert EscapedChar(c) == "\\u00" + [a, b];
    assert EscapedChar(c)[2..] == "00" + [a, b];
    assert Spells(a, v / 16) && Spells(b, v % 16) && Spells('0', 0);
    hide EscapedChar, HexDigit;
    assert v / 0x1000 == 0 && v / 0x100 % 0x10 == 0 && v / 0x10 % 0x10 == v / 16;
    assert !('A' <= a <= 'F') && !('A' <= b <= 'F') by { LowerCase(v / 16, a); LowerCase(v % 16, b); }
  }

  lemma LowerCase(n: nat, c: char)
    requires n < 16 && c == "0123456789abcdef"[n]
    ensures !('A' <= c <= 'F')
  {
    assert forall i | 0 <= i < 10 :: "0123456789abcdef"[i] == ('0' as int + i) as char;
    assert forall i | 10 <= i < 16 :: "0123456789abcdef"[i] == ('a' as int + i - 10) as char;
  }
}
