/** Decimal numerals: `std::to_string` on indices and `std::stoi` on reference tokens. */
module Decimal {
  import opened Outcomes

  predicate IsDigit(c: char) {
    '0' <= c <= '9'
  }

  predicate AllDigits(s: string) {
    forall i | 0 <= i < |s| :: IsDigit(s[i])
  }

  function DigitValue(c: char): nat
    requires IsDigit(c)
  {
    c as int - '0' as int
  }

  function DigitChar(d: nat): (c: char)
    requires d < 10
    ensures IsDigit(c) && DigitValue(c) == d
  {
    (d + '0' as int) as char
  }

  /** The numeral `std::to_string` prints. */
  function ToDecimal(n: nat): (s: string)
    ensures s != [] && AllDigits(s)
  {
    if n < 10 then [DigitChar(n)] else ToDecimal(n / 10) + [DigitChar(n % 10)]
  }

  /** The number a string of digits denotes. */
  function ValueOf(s: string): nat
    requires AllDigits(s)
  {
    if s == [] then 0 else 10 * ValueOf(s[..|s| - 1]) + DigitValue(s[|s| - 1])
  }

  lemma {:induction false} ValueOfToDecimal(n: nat)
    ensures ValueOf(ToDecimal(n)) == n
  {
    var s := ToDecimal(n);
    if n < 10 {
      assert s[..0] == [];
    } else {
      ValueOfToDecimal(n / 10);
      assert s[..|s| - 1] == ToDecimal(n / 10);
    }
  }

  /** Only zero starts with the digit 0, and no numeral has a superfluous one. */
  lemma {:induction false} LeadingZero(n: nat)
    ensures ToDecimal(n)[0] == '0' <==> n == 0
    ensures n == 0 ==> ToDecimal(n) == "0"
  {
    if n >= 10 {
      LeadingZero(n / 10);
    }
  }

  lemma ToDecimalInjective(m: nat, n: nat)
    requires ToDecimal(m) == ToDecimal(n)
    ensures m == n
  {
    ValueOfToDecimal(m);
    ValueOfToDecimal(n);
  }

  // ----- std::stoi -----

  const INT_MAX: int := 0x7fff_ffff

  predicate IsSpace(c: char) {
    c == ' ' || 9 <= c as int <= 13
  }

  function SkipSpaces(s: string): string {
    if s != [] && IsSpace(s[0]) then SkipSpaces(s[1..]) else s
  }

  function DigitPrefix(s: string): (d: string)
    ensures AllDigits(d)
  {
    if s != [] && IsDigit(s[0]) then [s[0]] + DigitPrefix(s[1..]) else []
  }

  /** `std::stoi`: blanks, an optional sign, then as many digits as there are; anything may follow. */
  function Stoi(s: string): Result<int> {
    var t := SkipSpaces(s);
    var signed := t != [] && (t[0] == '-' || t[0] == '+');
    var digits := DigitPrefix(if signed then t[1..] else t);
    if digits == [] then Err(InvalidArgument)
    else
      var n: int := ValueOf(digits);
      var v := if signed && t[0] == '-' then -n else n;
      if -INT_MAX - 1 <= v <= INT_MAX then Ok(v) else Err(OutOfRange)
  }

  lemma {:induction false} DigitPrefixOfDigits(s: string)
    requires AllDigits(s)
    ensures DigitPrefix(s) == s
  {
    if s != [] {
      DigitPrefixOfDigits(s[1..]);
      assert s == [s[0]] + s[1..];
    }
  }

  /** An index printed with `std::to_string` survives `std::stoi` exactly when it fits an int. */
  lemma StoiOfIndex(n: nat)
    ensures Stoi(ToDecimal(n)) == if n <= INT_MAX then Ok(n) else Err(OutOfRange)
  {
    var s := ToDecimal(n);
    assert IsDigit(s[0]);
    DigitPrefixOfDigits(s);
    ValueOfToDecimal(n);
  }

  // ----- what the conversions read -----

  /** The ten digits and what they stand for. */
  lemma DigitsInOrder(d: nat)
    requires d < 10
    ensures DigitChar(d) == "0123456789"[d] && DigitValue("0123456789"[d]) == d
  {
    assert forall i | 0 <= i < 10 :: "0123456789"[i] == ('0' as int + i) as char;
  }

  lemma {:induction false} SkipSpacesOf(ws: string, rest: string)
    requires forall i | 0 <= i < |ws| :: ws[i] as int in {9, 10, 11, 12, 13, 32}
    requires rest == "" || rest[0] as int !in {9, 10, 11, 12, 13, 32}
    ensures SkipSpaces(ws + rest) == rest
  {
    if ws == "" {
      assert ws + rest == rest;
    } else {
      SkipSpacesOf(ws[1..], rest);
      assert (ws + rest)[1..] == ws[1..] + rest;
    }
  }

  lemma {:induction false} DigitPrefixOf(digits: string, rest: string)
    requires AllDigits(digits) && (rest == "" || !('0' <= rest[0] <= '9'))
    ensures DigitPrefix(digits + rest) == digits
  {
    if digits == "" {
      assert digits + rest == rest;
    } else {
      DigitPrefixOf(digits[1..], rest);
      assert (digits + rest)[1..] == digits[1..] + rest;
    }
  }

  /** `std::stoi` reads blanks, at most one sign and then digits, and ignores whatever follows them. */
  lemma StoiOfText(ws: string, sign: string, digits: string, rest: string)
    requires forall i | 0 <= i < |ws| :: ws[i] as int in {9, 10, 11, 12, 13, 32}
    requires sign in {"", "+", "-"} && AllDigits(digits) && (rest == "" || !('0' <= rest[0] <= '9'))
    requires digits == "" && rest != "" ==>
      sign != "" || (rest[0] != '+' && rest[0] != '-' && rest[0] as int !in {9, 10, 11, 12, 13, 32})
    ensures Stoi(ws + (sign + (digits + rest))) ==
      if digits == "" then Err(InvalidArgument)
      else
        var v: int := if sign == "-" then 0 - ValueOf(digits) else ValueOf(digits);
        if -0x8000_0000 <= v <= 0x7FFF_FFFF then Ok(v) else Err(OutOfRange)
  {
    hide ValueOf;
    var t := digits + rest;
    var u := sign + t;
    assert t != "" ==> t[0] == if digits != "" then digits[0] else rest[0];
    assert u != "" ==> u[0] == if sign != "" then sign[0] else t[0];
    SkipSpacesOf(ws, u);
    DigitPrefixOf(digits, rest);
    assert sign != "" ==> u[1..] == t;
    assert sign == "" ==> u == t;
  }
}
