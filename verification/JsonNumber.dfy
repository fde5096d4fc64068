/** Number literals (section 6 of RFC 7159): their grammar and `get_number`. */
module JsonNumber {
  import opened Outcomes
  import opened Decimal
  import opened JsonValue

  // ----- grammar -----

  predicate Digits1(s: string) {
    s != "" && AllDigits(s)
  }

  predicate IsInt(s: string) {
    Digits1(s) && (s[0] == '0' ==> s == "0")
  }

  predicate IsFrac(s: string) {
    s == "" || (s[0] == '.' && Digits1(s[1..]))
  }

  predicate IsExp(s: string) {
    s == "" || ((s[0] == 'e' || s[0] == 'E') &&
                (Digits1(s[1..]) || (|s| > 1 && (s[1] == '+' || s[1] == '-') && Digits1(s[2..]))))
  }

  predicate IsMinus(s: string) {
    s == "" || s == "-"
  }

  /** `number = [ minus ] int [ frac ] [ exp ]`. */
  ghost predicate IsNumber(s: string) {
    exists minus, digits, frac, exp ::
      s == minus + digits + frac + exp && IsMinus(minus) && IsInt(digits) && IsFrac(frac) && IsExp(exp)
  }

  // ----- the longest number at the start of a text -----

  function DigitCount(s: string): (n: nat)
    ensures n <= |s| && AllDigits(s[..n])
    ensures n < |s| ==> !IsDigit(s[n])
  {
    if s == "" || !IsDigit(s[0]) then 0 else 1 + DigitCount(s[1..])
  }

  function MinusLength(s: string): nat {
    if s != "" && s[0] == '-' then 1 else 0
  }

  function IntLength(s: string): nat {
    if s != "" && s[0] == '0' then 1 else DigitCount(s)
  }

  function FracLength(s: string): (n: nat)
    ensures n <= |s|
  {
    if s != "" && s[0] == '.' && DigitCount(s[1..]) > 0 then 1 + DigitCount(s[1..]) else 0
  }

  function ExpLength(s: string): (n: nat)
    ensures n <= |s|
  {
    if s == "" || (s[0] != 'e' && s[0] != 'E') then 0
    else if |s| > 1 && (s[1] == '+' || s[1] == '-') then
      if DigitCount(s[2..]) > 0 then 2 + DigitCount(s[2..]) else 0
    else if DigitCount(s[1..]) > 0 then 1 + DigitCount(s[1..]) else 0
  }

  /** What follows the integer part. */
  function TailLength(s: string): (n: nat)
    ensures n <= |s|
  {
    FracLength(s) + ExpLength(s[FracLength(s)..])
  }

  /** The length of the longest number a text starts with; 0 if it starts with none. */
  function NumberLength(s: string): (n: nat)
    ensures n <= |s|
  {
    var m := MinusLength(s);
    var i := IntLength(s[m..]);
    if i == 0 then 0 else m + i + TailLength(s[m + i..])
  }

  lemma {:induction false} DigitCountOf(d: string, rest: string)
    requires AllDigits(d) && (rest == "" || !IsDigit(rest[0]))
    ensures DigitCount(d + rest) == |d|
    decreases |d|
  {
    var s := d + rest;
    if d == "" {
      assert s == rest;
    } else {
      DigitCountOf(d[1..], rest);
      assert s[1..] == d[1..] + rest;
    }
  }

  /** A run of digits at the start of a text is no longer than the digits that are there. */
  lemma {:induction false} DigitCountAtLeast(d: string, rest: string)
    requires AllDigits(d)
    ensures DigitCount(d + rest) >= |d|
    decreases |d|
  {
    var s := d + rest;
    if d != "" {
      DigitCountAtLeast(d[1..], rest);
      assert s[1..] == d[1..] + rest;
    }
  }

  lemma FracLengthAtLeast(frac: string, rest: string)
    requires IsFrac(frac)
    ensures FracLength(frac + rest) >= |frac|
    ensures frac == "" || (frac + rest)[0] == '.'
  {
    var s := frac + rest;
    if frac != "" {
      assert s[1..] == frac[1..] + rest;
      DigitCountAtLeast(frac[1..], rest);
    }
  }

  lemma ExpLengthAtLeast(exp: string, rest: string)
    requires IsExp(exp)
    ensures ExpLength(exp + rest) >= |exp|
  {
    var s := exp + rest;
    if exp != "" {
      if Digits1(exp[1..]) {
        assert s[1] == exp[1] && IsDigit(exp[1..][0]);
        assert s[1..] == exp[1..] + rest;
        DigitCountAtLeast(exp[1..], rest);
      } else {
        assert s[2..] == exp[2..] + rest;
        DigitCountAtLeast(exp[2..], rest);
      }
    }
  }

  /** An exponent never starts with a digit or a point, a fraction never with a digit. */
  lemma TailLengthAtLeast(frac: string, exp: string, rest: string)
    requires IsFrac(frac) && IsExp(exp)
    ensures TailLength(frac + exp + rest) >= |frac + exp|
  {
    var s := frac + exp + rest;
    if frac == "" {
      assert s == exp + rest;
      ExpLengthAtLeast(exp, rest);
      if exp != "" { assert FracLength(s) == 0 && s[0..] == s; }
    } else {
      assert s == frac + (exp + rest);
      FracLengthAtLeast(frac, exp + rest);
      if exp != "" {
        // the digits of the fraction end where the exponent starts
        var digits := frac[1..];
        assert s[1..] == digits + (exp + rest);
        assert (exp + rest)[0] == exp[0] && !IsDigit(exp[0]);
        DigitCountOf(digits, exp + rest);
        assert FracLength(s) == |frac| && s[|frac|..] == exp + rest;
        ExpLengthAtLeast(exp, rest);
      }
    }
  }

  /** The integer part either ends where the grammar says or runs on over further digits. */
  lemma IntLengthAtLeast(digits: string, tail: string)
    requires IsInt(digits)
    ensures var i := IntLength(digits + tail);
      i == |digits| || (i > |digits| && tail != "" && IsDigit(tail[0]))
  {
    var t := digits + tail;
    if digits[0] != '0' {
      DigitCountAtLeast(digits, tail);
      var i := DigitCount(t);
      if i > |digits| {
        assert t[..i][|digits|] == t[|digits|] == tail[0];
      }
    }
  }

  /** The same without the sign. */
  lemma UnsignedLengthIsLongest(digits: string, frac: string, exp: string, rest: string)
    requires IsInt(digits) && IsFrac(frac) && IsExp(exp)
    ensures var t := digits + (frac + exp + rest); var i := IntLength(t);
      0 < i <= |t| && |digits + frac + exp| <= i + TailLength(t[i..])
  {
    hide TailLength, DigitCount;
    var tail := frac + exp + rest;
    var t := digits + tail;
    var i := IntLength(t);
    IntLengthAtLeast(digits, tail);
    if i == |digits| {
      assert t[i..] == tail;
      TailLengthAtLeast(frac, exp, rest);
    } else {
      // more digits follow, so the shorter number has no fraction and no exponent
      assert frac == "" && exp == "";
    }
  }

  lemma NumberLengthOf(minus: string, digits: string, t: string)
    requires IsMinus(minus) && IsInt(digits) && digits <= t
    ensures var i := IntLength(t);
      0 < i <= |t| ==> NumberLength(minus + t) == |minus| + i + TailLength(t[i..])
  {
    hide TailLength, IntLength;
    var s := minus + t;
    var i := IntLength(t);
    assert t[0] == digits[0] && IsDigit(digits[0]);
    assert MinusLength(s) == |minus| && s[|minus|..] == t;
    if 0 < i <= |t| {
      assert s[|minus| + i..] == t[i..];
    }
  }

  /** Whenever a text starts with a number, the computed length reaches at least as far. */
  lemma NumberLengthIsLongest(s: string, n: nat)
    requires n <= |s| && IsNumber(s[..n])
    ensures n <= NumberLength(s)
  {
    var minus, digits, frac, exp :|
      s[..n] == minus + digits + frac + exp && IsMinus(minus) && IsInt(digits) && IsFrac(frac) && IsExp(exp);
    hide *;
    var rest := s[n..];
    var t := digits + (frac + exp + rest);
    assert s == s[..n] + rest;
    assert s == minus + t;
    UnsignedLengthIsLongest(digits, frac, exp, rest);
    NumberLengthOf(minus, digits, t);
  }

  lemma FracOf(u: string)
    ensures IsFrac(u[..FracLength(u)])
  {
    var f := FracLength(u);
    if f > 0 {
      assert u[..f][1..] == u[1..][..f - 1];
    }
  }

  lemma ExpOf(v: string)
    ensures IsExp(v[..ExpLength(v)])
  {
    var e := ExpLength(v);
    if e > 0 {
      if |v| > 1 && (v[1] == '+' || v[1] == '-') {
        assert v[..e][2..] == v[2..][..e - 2];
      } else {
        assert v[..e][1..] == v[1..][..e - 1];
      }
    }
  }

  lemma IntOf(t: string)
    requires IntLength(t) > 0
    ensures IntLength(t) <= |t| && IsInt(t[..IntLength(t)])
  {
    var i := IntLength(t);
    assert AllDigits(t[..i]);
    if t[0] == '0' { assert t[..i] == "0"; }
  }

  lemma NumberOfParts(minus: string, digits: string, frac: string, exp: string)
    requires IsMinus(minus) && IsInt(digits) && IsFrac(frac) && IsExp(exp)
    ensures IsNumber(minus + digits + frac + exp)
  {
  }

  /** The computed length is that of a number. */
  lemma NumberLengthIsNumber(s: string)
    requires NumberLength(s) > 0
    ensures IsNumber(s[..NumberLength(s)])
  {
    hide *;
    NumberLengthParts(s);
    var m := MinusLength(s);
    var t := s[m..];
    var i := IntLength(t);
    IntOf(t);
    var u := t[i..];
    var f := FracLength(u);
    FracOf(u);
    var v := u[f..];
    var e := ExpLength(v);
    ExpOf(v);
    TakeParts(s, m, i, f, e);
    Minus(s);
    NumberOfParts(s[..m], t[..i], u[..f], v[..e]);
  }

  lemma NumberLengthParts(s: string)
    requires NumberLength(s) > 0
    ensures var m := MinusLength(s);
      && m <= |s| && 0 < IntLength(s[m..]) <= |s| - m
      && var u := s[m..][IntLength(s[m..])..];
         NumberLength(s) == m + IntLength(s[m..]) + FracLength(u) + ExpLength(u[FracLength(u)..])
  {
    hide FracLength, ExpLength, DigitCount, AllDigits;
    var m := MinusLength(s);
    assert IntLength(s[m..]) <= |s| - m;
    assert s[m..][IntLength(s[m..])..] == s[m + IntLength(s[m..])..];
  }

  lemma Minus(s: string)
    ensures IsMinus(s[..MinusLength(s)])
  {
    assert MinusLength(s) == 1 ==> s[..1] == "-";
  }

  lemma TakeParts(s: string, m: nat, i: nat, f: nat, e: nat)
    requires m + i + f + e <= |s|
    ensures var t := s[m..]; var u := t[i..]; var v := u[f..];
      s[..m] + t[..i] + u[..f] + v[..e] == s[..m + i + f + e]
  {
  }

  // ----- get_number -----

  /** What a number token turns into; `Floating` is left to `strtod`. */
  datatype Number = Unsigned(u: uint64) | Integer(i: int64) | Floating

  const TWO_64: int := 0x1_0000_0000_0000_0000

  /** The digit loop: 64-bit arithmetic with the overflow test of the source; `None` means that the
      number is taken for a floating-point number. */
  function Accumulated(value: uint64, max: uint64, s: string): Option<uint64>
    decreases |s|
  {
    if s == "" then Some(value)
    else if !IsDigit(s[0]) then None
    else
      var temp: uint64 := (value * 10 + DigitValue(s[0])) % TWO_64;
      if temp < value || temp > max then None else Accumulated(temp, max, s[1..])
  }

  const INT64_LIMIT: uint64 := 0x8000_0000_0000_0000
  const UINT64_MAX: uint64 := 0xFFFF_FFFF_FFFF_FFFF

  lemma {:induction false} AccumulatedBelow(value: uint64, max: uint64, s: string)
    requires value <= max && Accumulated(value, max, s).Some?
    ensures Accumulated(value, max, s).value <= max && AllDigits(s)
    decreases |s|
  {
    if s != "" {
      AccumulatedBelow((value * 10 + DigitValue(s[0])) % TWO_64, max, s[1..]);
      assert s == [s[0]] + s[1..];
    }
  }

  /** The value of a number token. */
  function NumberOf(lexeme: string): Number
    requires lexeme != ""
  {
    if lexeme[0] == '-' then
      var v := Accumulated(0, INT64_LIMIT, lexeme[1..]);
      if v.None? then Floating
      else
        AccumulatedBelow(0, INT64_LIMIT, lexeme[1..]);
        var n: int := v.value;
        Integer(-n)
    else
      var v := Accumulated(0, UINT64_MAX, lexeme);
      if v.None? then Floating else Unsigned(v.value)
  }

  /** `get_number` as far as integers go; negating 2^63 in 64 bits yields -2^63. */
  method GetNumber(lexeme: string) returns (r: Number)
    requires lexeme != ""
    ensures r == NumberOf(lexeme)
  {
    var cur := 0;
    var value: uint64 := 0;
    var negative, floating := false, false;
    var max: uint64;
    if lexeme[0] == '-' {
      negative := true;
      max := INT64_LIMIT;
      cur := cur + 1;
    } else {
      max := UINT64_MAX;
    }
    ghost var digits := lexeme[cur..];
    while cur < |lexeme|
      invariant cur <= |lexeme| && value <= max
      invariant Accumulated(0, max, digits) == if floating then None else Accumulated(value, max, lexeme[cur..])
    {
      var c := lexeme[cur];
      assert lexeme[cur..][1..] == lexeme[cur + 1..];
      if !IsDigit(c) {
        floating := true;
        if c != '.' {
          break;
        }
      } else if !floating {
        var temp: uint64 := (value * 10 + DigitValue(c)) % TWO_64;
        if temp < value || temp > max {
          floating := true;
        } else {
          value := temp;
        }
      }
      cur := cur + 1;
    }
    assert !floating ==> lexeme[cur..] == "";
    if floating {
      return Floating;
    }
    var n: int := value;
    return if negative then Integer(-n) else Unsigned(value);
  }

  lemma {:induction false} ValueOfPrefix(d: string, s: string)
    requires AllDigits(d) && AllDigits(s)
    ensures AllDigits(d + s) && ValueOf(d) <= ValueOf(d + s)
    decreases |s|
  {
    if s == "" {
      assert d + s == d;
    } else {
      var front := s[..|s| - 1];
      ValueOfPrefix(d, front);
      assert (d + s)[..|d + s| - 1] == d + front;
    }
  }

  lemma AccumulatedStep(value: uint64, max: uint64, s: string)
    requires s != "" && IsDigit(s[0]) && 10 * value + DigitValue(s[0]) <= max
    ensures Accumulated(value, max, s) == Accumulated(10 * value + DigitValue(s[0]), max, s[1..])
  {
    assert (value * 10 + DigitValue(s[0])) % TWO_64 == 10 * value + DigitValue(s[0]);
  }

  lemma ValueOfExtended(d: string, c: char)
    requires AllDigits(d) && IsDigit(c)
    ensures AllDigits(d + [c]) && ValueOf(d + [c]) == 10 * ValueOf(d) + DigitValue(c)
  {
    var e := d + [c];
    assert e[..|e| - 1] == d;
  }

  /** As long as the value fits, the loop never wraps and computes it. */
  lemma {:induction false} AccumulatedExact(d: string, s: string, max: uint64)
    requires AllDigits(d) && AllDigits(s) && AllDigits(d + s) && ValueOf(d + s) <= max && ValueOf(d) <= max
    ensures Accumulated(ValueOf(d), max, s) == Some(ValueOf(d + s))
    decreases |s|
  {
    hide ValueOf;
    if s == "" {
      assert d + s == d;
    } else {
      var e := d + [s[0]];
      ValueOfExtended(d, s[0]);
      assert d + s == e + s[1..];
      ValueOfPrefix(e, s[1..]);
      hide Accumulated;
      AccumulatedStep(ValueOf(d), max, s);
      AccumulatedExact(e, s[1..], max);
    }
  }

  /** Every integer literal from -2^63 to 2^64 - 1 is converted to its exact value and kind, and only
      those can be: the conversion of a literal is exact if and only if it is in range. */
  lemma IntegersAreExact(s: string)
    requires Digits1(s)
    ensures NumberOf(s).Unsigned? && NumberOf(s).u == ValueOf(s) <==> ValueOf(s) <= UINT64_MAX
    ensures NumberOf("-" + s).Integer? && NumberOf("-" + s).i == 0 - ValueOf(s) <==> ValueOf(s) <= INT64_LIMIT
  {
    assert IsDigit(s[0]) && "" + s == s && ("-" + s)[1..] == s;
    if ValueOf(s) <= UINT64_MAX { AccumulatedExact("", s, UINT64_MAX); }
    if ValueOf(s) <= INT64_LIMIT { AccumulatedExact("", s, INT64_LIMIT); }
  }

  /** A literal with a fraction or an exponent is never taken for an integer. */
  lemma OthersAreFloating(s: string)
    requires s != "" && !AllDigits(s[MinusLength(s)..])
    ensures NumberOf(s) == Floating
  {
    var m := MinusLength(s);
    assert s[0..] == s;
    if Accumulated(0, if m == 1 then INT64_LIMIT else UINT64_MAX, s[m..]).Some? {
      AccumulatedBelow(0, if m == 1 then INT64_LIMIT else UINT64_MAX, s[m..]);
    }
  }

  lemma {:induction false} AccumulatedAppend(value: uint64, max: uint64, a: string, b: string)
    ensures Accumulated(value, max, a + b) ==
      var v := Accumulated(value, max, a); if v.Some? then Accumulated(v.value, max, b) else None
    decreases |a|
  {
    if a == "" {
      assert a + b == b;
    } else {
      assert (a + b)[1..] == a[1..] + b;
      if IsDigit(a[0]) {
        AccumulatedAppend((value * 10 + DigitValue(a[0])) % TWO_64, max, a[1..], b);
      }
    }
  }

  /** What 64-bit arithmetic keeps of the value of a numeral. */
  function Residue(s: string): uint64
    requires AllDigits(s)
  {
    ValueOf(s) % TWO_64
  }

  predicate Rises(s: string, i: nat, max: uint64)
    requires AllDigits(s) && 0 < i <= |s|
  {
    Residue(s[..i - 1]) <= Residue(s[..i]) <= max
  }

  /** The overflow test notices nothing: digit by digit the residue does not get smaller and stays within `max`. */
  predicate Unnoticed(s: string, max: uint64)
    requires AllDigits(s)
  {
    forall i | 0 < i <= |s| :: Rises(s, i, max)
  }

  lemma UnnoticedExtended(s: string, c: char, max: uint64)
    requires AllDigits(s) && IsDigit(c)
    ensures AllDigits(s + [c])
    ensures Unnoticed(s + [c], max) <==> Unnoticed(s, max) && Residue(s) <= Residue(s + [c]) <= max
  {
    hide Residue;
    var t := s + [c];
    forall i | 0 < i <= |s| ensures Rises(t, i, max) <==> Rises(s, i, max) {
      assert t[..i - 1] == s[..i - 1] && t[..i] == s[..i];
    }
    assert Rises(t, |t|, max) <==> Residue(s) <= Residue(t) <= max by {
      assert t[..|t|] == t && t[..|t| - 1] == s;
    }
  }

  /** Wrapping before a digit is added makes no difference. */
  lemma WrapEarlier(v: nat, d: nat)
    ensures (v % TWO_64 * 10 + d) % TWO_64 == (10 * v + d) % TWO_64
  {
    assert 10 * v + d == TWO_64 * (10 * (v / TWO_64)) + (v % TWO_64 * 10 + d);
  }

  lemma AccumulatedOne(value: uint64, c: char, max: uint64)
    requires IsDigit(c)
    ensures var temp: uint64 := (value * 10 + DigitValue(c)) % TWO_64;
      Accumulated(value, max, [c]) == if temp < value || temp > max then None else Some(temp)
  {
    assert [c][1..] == "";
  }

  /** One turn of the loop on residues. */
  lemma ResidueStep(s: string, c: char, max: uint64)
    requires AllDigits(s) && IsDigit(c)
    ensures AllDigits(s + [c])
    ensures Accumulated(Residue(s), max, [c]) ==
      if Residue(s) <= Residue(s + [c]) <= max then Some(Residue(s + [c])) else None
  {
    hide ValueOf;
    ValueOfExtended(s, c);
    WrapEarlier(ValueOf(s), DigitValue(c));
    AccumulatedOne(Residue(s), c, max);
  }

  lemma {:induction false} AccumulatedResidue(s: string, max: uint64)
    requires AllDigits(s)
    ensures Accumulated(0, max, s) == if Unnoticed(s, max) then Some(Residue(s)) else None
    decreases |s|
  {
    hide Residue;
    if s == "" {
      EmptyNumeral();
    } else {
      hide Accumulated, Unnoticed;
      var front, c := s[..|s| - 1], s[|s| - 1];
      assert s == front + [c];
      AccumulatedResidue(front, max);
      AccumulatedAppend(0, max, front, [c]);
      ResidueStep(front, c, max);
      UnnoticedExtended(front, c, max);
    }
  }

  lemma EmptyNumeral()
    ensures Residue("") == 0
  {
  }

  /** What `get_number` makes of any integer literal, in range or not: the residue of its value if the overflow
      test notices nothing, and a floating-point number otherwise. */
  lemma OverflowTestExactly(s: string)
    requires Digits1(s)
    ensures NumberOf(s) == if Unnoticed(s, UINT64_MAX) then Unsigned(Residue(s)) else Floating
    ensures if Unnoticed(s, INT64_LIMIT)
      then NumberOf("-" + s).Integer? && NumberOf("-" + s).i == 0 - Residue(s)
      else NumberOf("-" + s) == Floating
  {
    hide Accumulated, Unnoticed, Residue;
    assert IsDigit(s[0]) && ("-" + s)[1..] == s;
    AccumulatedResidue(s, UINT64_MAX);
    AccumulatedResidue(s, INT64_LIMIT);
  }

  /** The numeral 5 followed by `n` zeros. */
  function FiveAndZeros(n: nat): (s: string)
    ensures Digits1(s) && s[0] == '5'
  {
    if n == 0 then "5" else FiveAndZeros(n - 1) + "0"
  }

  function Pow10(n: nat): nat {
    if n == 0 then 1 else 10 * Pow10(n - 1)
  }

  lemma {:induction false} ValueOfFiveAndZeros(n: nat)
    ensures ValueOf(FiveAndZeros(n)) == 5 * Pow10(n)
  {
    var s := FiveAndZeros(n);
    if n == 0 {
      assert s[..0] == "";
    } else {
      ValueOfFiveAndZeros(n - 1);
      assert s[..|s| - 1] == FiveAndZeros(n - 1);
    }
  }

  lemma Pow10Of18()
    ensures Pow10(18) == 1_000_000_000_000_000_000
  {
    assert Pow10(6) == 1_000_000;
    assert Pow10(12) == 1_000_000_000_000;
  }

  lemma LastZeroWraps(value: uint64)
    requires value == 5_000_000_000_000_000_000
    ensures Accumulated(value, UINT64_MAX, "0") == Some(13106511852580896768)
  {
    var temp := 13106511852580896768;
    assert (value * 10 + DigitValue('0')) % TWO_64 == temp;
    assert "0"[1..] == "" && Accumulated(temp, UINT64_MAX, "") == Some(temp);
  }

  /** Beyond the range the wrap can go unnoticed: 5 * 10^19 becomes a smaller integer. */
  lemma WrapGoesUnnoticed()
    ensures NumberOf(FiveAndZeros(19)) == Unsigned(13106511852580896768)
  {
    var d := FiveAndZeros(18);
    ValueOfFiveAndZeros(18);
    Pow10Of18();
    assert FiveAndZeros(19) == d + "0";
    assert "" + d == d && ValueOf("") == 0;
    hide ValueOf, Pow10, FiveAndZeros, Accumulated;
    AccumulatedExact("", d, UINT64_MAX);
    AccumulatedAppend(0, UINT64_MAX, d, "0");
    LastZeroWraps(5_000_000_000_000_000_000);
  }

  // ----- printed integers -----

  /** What `operator<<` prints for an integer. */
  function IntText(i: int): (s: string)
    ensures s != ""
  {
    if i < 0 then "-" + ToDecimal(-i) else ToDecimal(i)
  }

  /** The number an integer literal is read back as: non-negative ones become unsigned. */
  lemma IntTextIsExact(i: int)
    requires -0x8000_0000_0000_0000 <= i <= UINT64_MAX
    ensures NumberOf(IntText(i)) == if i < 0 then Integer(i) else Unsigned(i)
  {
    var n: int := if i < 0 then -i else i;
    ValueOfToDecimal(n);
    IntegersAreExact(ToDecimal(n));
  }

  predicate EndsNumber(rest: string) {
    rest == "" || !(IsDigit(rest[0]) || rest[0] == '.' || rest[0] == 'e' || rest[0] == 'E')
  }

  lemma ExpLengthEnds(exp: string, rest: string)
    requires IsExp(exp) && EndsNumber(rest)
    ensures ExpLength(exp + rest) == |exp|
  {
    var s := exp + rest;
    if exp == "" {
      assert s == rest;
    } else if Digits1(exp[1..]) {
      assert s[1] == exp[1] && IsDigit(exp[1..][0]);
      assert s[1..] == exp[1..] + rest;
      DigitCountOf(exp[1..], rest);
    } else {
      assert s[2..] == exp[2..] + rest;
      DigitCountOf(exp[2..], rest);
    }
  }

  lemma FracLengthEnds(frac: string, tail: string)
    requires IsFrac(frac) && (tail == "" || (!IsDigit(tail[0]) && tail[0] != '.'))
    ensures FracLength(frac + tail) == |frac|
  {
    var s := frac + tail;
    if frac == "" {
      assert s == tail;
    } else {
      assert s[1..] == frac[1..] + tail;
      DigitCountOf(frac[1..], tail);
    }
  }

  lemma TailLengthEnds(frac: string, exp: string, rest: string)
    requires IsFrac(frac) && IsExp(exp) && EndsNumber(rest)
    ensures TailLength(frac + exp + rest) == |frac| + |exp|
    ensures frac + exp + rest == "" || !IsDigit((frac + exp + rest)[0])
  {
    hide ExpLength, FracLength;
    var tail := exp + rest;
    var s := frac + exp + rest;
    assert s == frac + tail && s[|frac|..] == tail;
    assert exp != "" ==> tail[0] == exp[0];
    assert exp == "" ==> tail == rest;
    FracLengthEnds(frac, tail);
    ExpLengthEnds(exp, rest);
    assert frac == "" ==> s == tail;
  }

  lemma IntLengthEnds(digits: string, tail: string)
    requires IsInt(digits) && (tail == "" || !IsDigit(tail[0]))
    ensures IntLength(digits + tail) == |digits|
  {
    DigitCountOf(digits, tail);
  }

  lemma Regroup(minus: string, digits: string, frac: string, exp: string, rest: string)
    ensures minus + digits + frac + exp + rest == minus + (digits + (frac + exp + rest))
  {
    assert minus + digits + (frac + exp + rest) == minus + (digits + (frac + exp + rest));
    assert minus + digits + frac + exp + rest == minus + digits + (frac + exp + rest);
  }

  lemma PartsEnd(minus: string, digits: string, frac: string, exp: string, rest: string)
    requires IsMinus(minus) && IsInt(digits) && IsFrac(frac) && IsExp(exp) && EndsNumber(rest)
    ensures NumberLength(minus + digits + frac + exp + rest) == |minus + digits + frac + exp|
  {
    hide *;
    var tail := frac + exp + rest;
    var t := digits + tail;
    TailLengthEnds(frac, exp, rest);
    IntLengthEnds(digits, tail);
    IntIsNotEmpty(digits);
    NumberLengthOf(minus, digits, t);
    assert t[|digits|..] == tail;
    Regroup(minus, digits, frac, exp, rest);
  }

  /** A number is scanned up to its end, and no further, when what follows cannot continue it. */
  lemma NumberLengthEnds(s: string, rest: string)
    requires IsNumber(s) && EndsNumber(rest)
    ensures NumberLength(s + rest) == |s|
  {
    hide NumberLength, IsMinus, IsInt, IsFrac, IsExp, EndsNumber;
    var minus, digits, frac, exp :|
      s == minus + digits + frac + exp && IsMinus(minus) && IsInt(digits) && IsFrac(frac) && IsExp(exp);
    PartsEnd(minus, digits, frac, exp, rest);
  }

  lemma IntIsNotEmpty(digits: string)
    requires IsInt(digits)
    ensures digits != ""
  {
  }

  /** A printed integer is a number of the grammar. */
  lemma IntTextIsNumber(i: int)
    ensures IsNumber(IntText(i))
  {
    var n: int := if i < 0 then -i else i;
    var minus, digits := if i < 0 then "-" else "", ToDecimal(n);
    LeadingZero(n);
    NumberOfParts(minus, digits, "", "");
    assert IntText(i) == minus + digits + "" + "";
  }

  /** A printed integer is scanned up to its end, and no further. */
  lemma IntTextLength(i: int, rest: string)
    requires EndsNumber(rest)
    ensures NumberLength(IntText(i) + rest) == |IntText(i)|
  {
    hide IsNumber, IntText, NumberLength;
    IntTextIsNumber(i);
    NumberLengthEnds(IntText(i), rest);
  }
}
