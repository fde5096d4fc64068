/** JSON pointers (RFC 6901): escaping, splitting and printing of reference tokens. */
module JsonPointer {
  import opened Outcomes
  import opened Decimal

  // ----- replace_substring, escape, unescape -----

  /** `s` with every occurrence of `f`, found from the left, replaced by `t`. */
  function Replaced(s: string, f: string, t: string): string
    requires f != []
  {
    if |s| < |f| then s
    else if f <= s then t + Replaced(s[|f|..], f, t)
    else [s[0]] + Replaced(s[1..], f, t)
  }

  predicate OccursAt(s: string, f: string, i: nat) {
    i + |f| <= |s| && s[i..i + |f|] == f
  }

  /** `s.find(f, from)`; -1 stands for `npos`. */
  method Find(s: string, f: string, from: nat) returns (pos: int)
    requires f != [] && from <= |s|
    ensures pos == -1 || from <= pos
    ensures pos >= 0 ==> OccursAt(s, f, pos)
    ensures forall i: nat | from <= i && (pos < 0 || i < pos) :: !OccursAt(s, f, i)
  {
    pos := from;
    while pos + |f| <= |s|
      invariant from <= pos
      invariant forall i: nat | from <= i < pos :: !OccursAt(s, f, i)
    {
      if s[pos..pos + |f|] == f {
        return;
      }
      pos := pos + 1;
    }
    pos := -1;
  }

  /** The cases of `Replaced` for a text that does not start with `f`. */
  lemma ReplacedSkips(s: string, f: string, t: string)
    requires f != []
    ensures |s| < |f| ==> Replaced(s, f, t) == s
    ensures s != [] && !OccursAt(s, f, 0) ==> Replaced(s, f, t) == [s[0]] + Replaced(s[1..], f, t)
  {
    if |f| <= |s| {
      assert f <= s <==> s[0..|f|] == f;
    } else if s != [] {
      assert Replaced(s[1..], f, t) == s[1..];
    }
  }

  /** Nothing before `pos` is replaced when `f` does not occur there. */
  lemma {:induction false} ReplacedFrom(s: string, f: string, t: string, from: nat, pos: nat)
    requires f != [] && from <= pos <= |s|
    requires forall i: nat | from <= i < pos :: !OccursAt(s, f, i)
    ensures Replaced(s[from..], f, t) == s[from..pos] + Replaced(s[pos..], f, t)
    decreases pos - from
  {
    hide Replaced;
    if from == pos {
      assert s[from..pos] == [];
    } else {
      var u := s[from..];
      assert !OccursAt(u, f, 0) by {
        assert !OccursAt(s, f, from);
        assert from + |f| <= |s| ==> u[0..|f|] == s[from..from + |f|];
      }
      ReplacedSkips(u, f, t);
      assert u[1..] == s[from + 1..];
      ReplacedFrom(s, f, t, from + 1, pos);
      assert [s[from]] + s[from + 1..pos] == s[from..pos];
    }
  }

  /** One replacement at the first occurrence `pos`. */
  lemma ReplacedFirst(s: string, f: string, t: string, from: nat, pos: nat)
    requires f != [] && from <= pos && OccursAt(s, f, pos)
    requires forall i: nat | from <= i < pos :: !OccursAt(s, f, i)
    ensures Replaced(s[from..], f, t) == s[from..pos] + t + Replaced(s[pos + |f|..], f, t)
  {
    ReplacedFrom(s, f, t, from, pos);
    assert s[pos..][..|f|] == s[pos..pos + |f|];
    assert s[pos..][|f|..] == s[pos + |f|..];
  }

  /** The text after a replacement: what is done, and what is still to be searched. */
  lemma SplicedText(s: string, t: string, from: nat, pos: nat, after: nat)
    requires from <= pos <= after <= |s|
    ensures var next := s[..pos] + t + s[after..];
      next[..pos + |t|] == s[..from] + (s[from..pos] + t) && next[pos + |t|..] == s[after..]
  {
  }

  method ReplaceSubstring(original: string, f: string, t: string) returns (s: string)
    requires f != []
    ensures s == Replaced(original, f, t)
  {
    s := original;
    ghost var from: nat := 0;                    // the text from here on is still to be searched
    ghost var rest := Replaced(original, f, t);  // what it is going to be replaced by
    var pos := Find(s, f, 0);
    while pos >= 0
      invariant from <= |s|
      invariant rest == Replaced(s[from..], f, t)
      invariant Replaced(original, f, t) == s[..from] + rest
      invariant pos >= 0 ==> from <= pos && OccursAt(s, f, pos)
      invariant forall i: nat | from <= i && (pos < 0 || i < pos) :: !OccursAt(s, f, i)
      decreases |s| - from, pos
    {
      ghost var done, after := s[..from], Replaced(s[pos + |f|..], f, t);
      assert rest == s[from..pos] + t + after by { ReplacedFirst(s, f, t, from, pos); }
      assert done + (s[from..pos] + t + after) == done + (s[from..pos] + t) + after;
      SplicedText(s, t, from, pos, pos + |f|);
      s := s[..pos] + t + s[pos + |f|..];
      from := pos + |t|;
      rest := after;
      pos := Find(s, f, pos + |t|);
    }
    ReplacedFrom(s, f, t, from, |s|);
    assert s[from..|s|] == s[from..];
  }

  function Escape(s: string): string {
    Replaced(Replaced(s, "~", "~0"), "/", "~1")
  }

  function Unescape(s: string): string {
    Replaced(Replaced(s, "~1", "/"), "~0", "~")
  }

  method UnescapeInPlace(token: string) returns (s: string)
    ensures s == Unescape(token)
  {
    s := ReplaceSubstring(token, "~1", "/");
    s := ReplaceSubstring(s, "~0", "~");
  }

  /** The escape of one character (section 3 of RFC 6901). */
  function EscapeChar(c: char): string {
    if c == '~' then "~0" else if c == '/' then "~1" else [c]
  }

  lemma {:induction false} ReplacedStep(c: char, rest: string, f: char, t: string)
    ensures Replaced([c] + rest, [f], t) == (if c == f then t else [c]) + Replaced(rest, [f], t)
  {
    var s := [c] + rest;
    assert s[1..] == rest;
    assert [f] <= s <==> s[0] == f;
  }

  /** Escaping works character by character although it runs two passes. */
  lemma {:induction false} EscapeStep(c: char, rest: string)
    ensures Escape([c] + rest) == EscapeChar(c) + Escape(rest)
  {
    ReplacedStep(c, rest, '~', "~0");
    var r := Replaced(rest, "~", "~0");
    if c == '~' {
      assert Replaced([c] + rest, "~", "~0") == ['~'] + (['0'] + r);
      ReplacedStep('~', ['0'] + r, '/', "~1");
      ReplacedStep('0', r, '/', "~1");
      assert "~0" + Escape(rest) == ['~'] + (['0'] + Escape(rest));
    } else {
      ReplacedStep(c, r, '/', "~1");
    }
  }

  /** A `~` only occurs as the start of `~0` or `~1`: the check in `split`. */
  predicate ProperlyEscaped(s: string) {
    forall i | 0 <= i < |s| && s[i] == '~' :: i + 1 < |s| && (s[i + 1] == '0' || s[i + 1] == '1')
  }

  predicate SlashFree(s: string) {
    forall i | 0 <= i < |s| :: s[i] != '/'
  }

  /** The first unit of a properly escaped token. */
  function UnitLength(s: string): nat
    requires s != []
  {
    if s[0] == '~' then 2 else 1
  }

  lemma UnitsCompose(s: string)
    requires s != [] && ProperlyEscaped(s)
    ensures UnitLength(s) <= |s| && ProperlyEscaped(s[UnitLength(s)..])
  {
    var n := UnitLength(s);
    assert s[0] == '~' ==> 1 < |s|;
    forall i | 0 <= i < |s| - n && s[n..][i] == '~'
      ensures i + 1 < |s| - n && (s[n..][i + 1] == '0' || s[n..][i + 1] == '1')
    {
      assert s[i + n] == '~';
    }
  }

  /** One pass of a two-character pattern over text that starts with a complete unit. */
  lemma {:induction false} ReplacedUnit(unit: string, rest: string, f: string, t: string)
    requires |f| == 2 && f[0] == '~' && (f[1] == '0' || f[1] == '1')
    requires (|unit| == 1 && unit[0] != '~') || (|unit| == 2 && unit[0] == '~' && unit[1] != '~')
    ensures Replaced(unit + rest, f, t) == (if unit == f then t else unit) + Replaced(rest, f, t)
  {
    var s := unit + rest;
    if |unit| == 1 {
      assert s[1..] == rest;
      if |s| < 2 { assert s == unit + rest && |rest| == 0; } else { assert s[0] != f[0]; }
    } else {
      assert s[..2] == unit && s[2..] == rest;
      if unit != f {
        assert unit == [unit[0], unit[1]] && f == [f[0], f[1]];
        assert !(f <= s);
        var s1 := s[1..];
        assert s1[0] == unit[1] && s1[1..] == rest;
        if |s1| < 2 { assert rest == []; assert s1 == [unit[1]]; } else { assert !(f <= s1); }
        assert Replaced(s1, f, t) == [unit[1]] + Replaced(rest, f, t);
      }
    }
  }

  /** Unescaping decodes unit by unit: replacing `~1` before `~0` never merges two units. */
  lemma {:induction false} UnescapeUnit(s: string)
    requires s != [] && ProperlyEscaped(s)
    ensures UnitLength(s) <= |s|
    ensures var rest := s[UnitLength(s)..];
      Unescape(s) == [if s[0] != '~' then s[0] else if s[1] == '0' then '~' else '/'] + Unescape(rest)
  {
    UnitsCompose(s);
    var n := UnitLength(s);
    var unit, rest := s[..n], s[n..];
    assert s == unit + rest;
    assert s[0] == '~' ==> s[1] == '0' || s[1] == '1';
    ReplacedUnit(unit, rest, "~1", "/");
    var r := Replaced(rest, "~1", "/");
    var u := if unit == "~1" then "/" else unit;
    assert unit == "~1" || u == unit;
    ReplacedUnit(u, r, "~0", "~");
    assert s[0] != '~' ==> u == [s[0]];
    assert s[0] == '~' ==> unit == [s[0], s[1]];
  }

  /** Properly escaped, slash-free text is exactly what `Escape` produces. */
  lemma {:induction false} EscapeUnescape(s: string)
    requires ProperlyEscaped(s) && SlashFree(s)
    ensures Escape(Unescape(s)) == s
  {
    if s != [] {
      UnescapeUnit(s);
      UnitsCompose(s);
      var n := UnitLength(s);
      EscapeUnescape(s[n..]);
      assert s == s[..n] + s[n..];
      var c := if s[0] != '~' then s[0] else if s[1] == '0' then '~' else '/';
      EscapeStep(c, Unescape(s[n..]));
      assert s[..n] == EscapeChar(c);
    }
  }

  lemma {:induction false} EscapeIsProper(s: string)
    ensures ProperlyEscaped(Escape(s)) && SlashFree(Escape(s))
  {
    if s != [] {
      EscapeIsProper(s[1..]);
      EscapeStep(s[0], s[1..]);
      assert s == [s[0]] + s[1..];
    }
  }

  lemma {:induction false} UnescapeEscape(s: string)
    ensures Unescape(Escape(s)) == s
  {
    if s != [] {
      assert s == [s[0]] + s[1..];
      EscapeStep(s[0], s[1..]);
      EscapeIsProper(s);
      UnescapeUnit(Escape(s));
      var n := UnitLength(Escape(s));
      assert n == |EscapeChar(s[0])|;
      assert Escape(s)[n..] == Escape(s[1..]);
      UnescapeEscape(s[1..]);
    }
  }

  // ----- to_string and split -----

  function Segment(token: string): string {
    "/" + Escape(token)
  }

  /** `to_string`: a left fold over the tokens. */
  function ToString(tokens: seq<string>): string {
    if tokens == [] then "" else ToString(tokens[..|tokens| - 1]) + Segment(tokens[|tokens| - 1])
  }

  lemma {:induction false} ToStringAppend(p: seq<string>, q: seq<string>)
    ensures ToString(p + q) == ToString(p) + ToString(q)
  {
    if q == [] {
      assert p + q == p;
    } else {
      var front, last := q[..|q| - 1], q[|q| - 1];
      ToStringAppend(p, front);
      assert (p + q)[..|p + q| - 1] == p + front;
      var a, b, c := ToString(p), ToString(front), Segment(last);
      assert ToString(p + q) == (a + b) + c == a + (b + c);
    }
  }

  lemma ToStringCons(t: string, rest: seq<string>)
    ensures ToString([t] + rest) == Segment(t) + ToString(rest)
  {
    ToStringAppend([t], rest);
    assert [t][..0] == [];
  }

  lemma {:induction false} EscapeDigits(s: string)
    requires AllDigits(s)
    ensures Escape(s) == s
  {
    if s != [] {
      EscapeDigits(s[1..]);
      assert s == [s[0]] + s[1..];
      assert IsDigit(s[0]);
      EscapeStep(s[0], s[1..]);
    }
  }

  /** The text of an index as a path segment. */
  lemma IndexSegment(i: nat)
    ensures Segment(ToDecimal(i)) == "/" + ToDecimal(i)
    ensures ToString([ToDecimal(i)]) == "/" + ToDecimal(i)
  {
    EscapeDigits(ToDecimal(i));
    ToStringCons(ToDecimal(i), []);
    assert [ToDecimal(i)] + [] == [ToDecimal(i)];
  }

  lemma KeySegment(k: string)
    ensures ToString([k]) == "/" + Escape(k)
  {
    ToStringCons(k, []);
    assert [k] + [] == [k];
  }

  /** The parts of `s` between its slashes. */
  function Fields(s: string): (fs: seq<string>)
    ensures fs != []
  {
    if s == [] then [[]]
    else
      var fs := Fields(s[1..]);
      if s[0] == '/' then [[]] + fs else [[s[0]] + fs[0]] + fs[1..]
  }

  lemma {:induction false} FieldsOf(field: string, more: string)
    requires SlashFree(field)
    ensures Fields(field) == [field]
    ensures Fields(field + "/" + more) == [field] + Fields(more)
  {
    var s := field + "/" + more;
    if field == [] {
      assert s[1..] == more;
    } else {
      FieldsOf(field[1..], more);
      assert s[1..] == field[1..] + "/" + more;
      assert field == [field[0]] + field[1..];
    }
  }

  /** The unescaped fields, unless one of them is not properly escaped. */
  function UnescapeAll(fs: seq<string>): (r: Result<seq<string>>)
    ensures r.Ok? ==> |r.value| == |fs|
  {
    if fs == [] then Ok([])
    else if !ProperlyEscaped(fs[0]) then Err(DomainError)
    else
      var rest :- UnescapeAll(fs[1..]);
      Ok([Unescape(fs[0])] + rest)
  }

  /** What `split` returns: the unescaped fields after the first slash, or a domain error. */
  function Split(s: string): Result<seq<string>> {
    if s == [] then Ok([])
    else if s[0] != '/' then Err(DomainError)
    else UnescapeAll(Fields(s[1..]))
  }

  /** `s.find_first_of(c, from)`; -1 stands for `npos`. */
  method FindFirstOf(s: string, c: char, from: nat) returns (pos: int)
    ensures pos == -1 || (from <= pos < |s| && s[pos] == c)
    ensures forall i | from <= i < |s| && (pos < 0 || i < pos) :: s[i] != c
  {
    pos := from;
    while pos < |s|
      invariant from <= pos
      invariant forall i | from <= i < pos && i < |s| :: s[i] != c
    {
      if s[pos] == c {
        return;
      }
      pos := pos + 1;
    }
    pos := -1;
  }

  /** The check that every tilde of a raw token is followed by 0 or 1. */
  method CheckEscapes(token: string) returns (ok: bool)
    ensures ok <==> ProperlyEscaped(token)
  {
    var pos := FindFirstOf(token, '~', 0);
    while pos >= 0
      invariant pos >= 0 ==> pos < |token| && token[pos] == '~'
      invariant forall i | 0 <= i < |token| && token[i] == '~' && (pos < 0 || i < pos) ::
        i + 1 < |token| && (token[i + 1] == '0' || token[i + 1] == '1')
      decreases if pos < 0 then 0 else |token| - pos + 1
    {
      if pos == |token| - 1 || (token[pos + 1] != '0' && token[pos + 1] != '1') {
        return false;
      }
      pos := FindFirstOf(token, '~', pos + 1);
    }
    return true;
  }

  /** `slash` is the first slash of `s` from `start` on, or -1. */
  ghost predicate NextSlash(s: string, start: nat, slash: int) {
    && slash >= -1
    && (slash >= 0 ==> start <= slash < |s| && s[slash] == '/')
    && forall i | start <= i < |s| && (slash < 0 || i < slash) :: s[i] != '/'
  }

  /** Cutting off the field before the next slash, if there is one. */
  lemma FieldsStep(s: string, start: nat, slash: int)
    requires start <= |s| && NextSlash(s, start, slash)
    ensures slash < 0 ==> Fields(s[start..]) == [s[start..]]
    ensures slash >= 0 ==> Fields(s[start..]) == [s[start..slash]] + Fields(s[slash + 1..])
  {
    if slash < 0 {
      FieldsOf(s[start..], "");
    } else {
      FieldsOf(s[start..slash], s[slash + 1..]);
      assert s[start..] == s[start..slash] + "/" + s[slash + 1..];
    }
  }

  lemma UnescapeStep(token: string, after: seq<string>, tokens: seq<string>, whole: Result<seq<string>>)
    requires Continues(whole, tokens, UnescapeAll([token] + after))
    ensures if ProperlyEscaped(token) then Continues(whole, tokens + [Unescape(token)], UnescapeAll(after))
      else whole == Err(DomainError)
  {
    var fields := [token] + after;
    assert fields[1..] == after;
    if ProperlyEscaped(token) && UnescapeAll(after).Ok? {
      var more := UnescapeAll(after).value;
      assert tokens + ([Unescape(token)] + more) == tokens + [Unescape(token)] + more;
    }
  }

  method SplitTokens(s: string) returns (result: Result<seq<string>>)
    ensures result == Split(s)
  {
    hide Unescape, ProperlyEscaped, Fields, SlashFree;
    if s == [] {
      return Ok([]);
    }
    if s[0] != '/' {
      return Err(DomainError);
    }
    var tokens: seq<string> := [];
    ghost var rest := Fields(s[1..]);  // the raw tokens still to be read
    var start: nat := 1;
    var slash := FindFirstOf(s, '/', 1);
    while start != 0
      invariant start <= |s| && NextSlash(s, start, slash)
      invariant rest == if start == 0 then [] else Fields(s[start..])
      invariant Continues(Split(s), tokens, UnescapeAll(rest))
      decreases if start == 0 then 0 else |s| - start + 1
    {
      var token := if slash < 0 then s[start..] else s[start..slash];
      ghost var after := if slash < 0 then [] else Fields(s[slash + 1..]);
      assert rest == [token] + after by { FieldsStep(s, start, slash); }
      UnescapeStep(token, after, tokens, Split(s));
      var ok := CheckEscapes(token);
      if !ok {
        return Err(DomainError);
      }
      var unescaped := UnescapeInPlace(token);
      tokens := tokens + [unescaped];
      rest := after;
      start := slash + 1;
      slash := FindFirstOf(s, '/', start);
    }
    assert rest == [] && tokens + [] == tokens;
    return Ok(tokens);
  }

  lemma {:induction false} FieldsOfToString(tokens: seq<string>)
    requires tokens != []
    ensures var fs := Fields(ToString(tokens)[1..]);
      UnescapeAll(fs) == Ok(tokens)
  {
    hide Escape, Unescape, ProperlyEscaped, SlashFree;
    var t, rest := tokens[0], tokens[1..];
    assert tokens == [t] + rest;
    ToStringCons(t, rest);
    EscapeIsProper(t);
    UnescapeEscape(t);
    var body := ToString(tokens)[1..];
    assert body == Escape(t) + ToString(rest);
    if rest == [] {
      assert body == Escape(t);
      FieldsOf(Escape(t), "");
    } else {
      FieldsOfToString(rest);
      ToStringCons(rest[0], rest[1..]);
      assert rest == [rest[0]] + rest[1..];
      var more := ToString(rest)[1..];
      assert ToString(rest) == "/" + more;
      FieldsOf(Escape(t), more);
      assert body == Escape(t) + "/" + more;
    }
  }

  /** `ptr == json_pointer(ptr.to_string())`, for every list of tokens, empty tokens included. */
  lemma SplitToString(tokens: seq<string>)
    ensures Split(ToString(tokens)) == Ok(tokens)
  {
    if tokens != [] {
      FieldsOfToString(tokens);
      ToStringCons(tokens[0], tokens[1..]);
      assert tokens == [tokens[0]] + tokens[1..];
    }
  }

  /** The text a list of raw fields was cut from. */
  function Joined(fs: seq<string>): string
    requires fs != []
  {
    if |fs| == 1 then fs[0] else fs[0] + "/" + Joined(fs[1..])
  }

  lemma {:induction false} JoinedFields(s: string)
    ensures Joined(Fields(s)) == s && forall i | 0 <= i < |Fields(s)| :: SlashFree(Fields(s)[i])
  {
    if s != [] {
      JoinedFields(s[1..]);
      var fs := Fields(s[1..]);
      assert s == [s[0]] + s[1..];
      if s[0] == '/' {
        assert Fields(s)[1..] == fs;
      } else {
        assert Fields(s)[1..] == fs[1..];
      }
    }
  }

  lemma {:induction false} ToStringUnescapeAll(fs: seq<string>)
    requires fs != [] && UnescapeAll(fs).Ok?
    requires forall i | 0 <= i < |fs| :: SlashFree(fs[i])
    ensures ToString(UnescapeAll(fs).value) == "/" + Joined(fs)
  {
    var rest := UnescapeAll(fs[1..]).value;
    ToStringCons(Unescape(fs[0]), rest);
    assert Segment(Unescape(fs[0])) == "/" + fs[0] by { EscapeUnescape(fs[0]); }
    if |fs| > 1 {
      ToStringUnescapeAll(fs[1..]);
      assert "/" + fs[0] + ("/" + Joined(fs[1..])) == "/" + (fs[0] + "/" + Joined(fs[1..]));
    }
  }

  /** Whatever `split` accepts is the printed form of the pointer it returns: the accepted strings
      are exactly the printed pointers, each of exactly one token list. */
  lemma ToStringSplit(s: string)
    ensures Split(s).Ok? ==> ToString(Split(s).value) == s
    ensures Split(s).Ok? <==> exists tokens :: s == ToString(tokens)
  {
    if Split(s).Ok? && s != [] {
      JoinedFields(s[1..]);
      ToStringUnescapeAll(Fields(s[1..]));
    }
    if tokens :| s == ToString(tokens) {
      SplitToString(tokens);
    }
  }

  // ----- what split refuses -----

  /** Putting a byte in front of a text. */
  lemma ProperlyEscapedCons(c: char, s: string)
    ensures ProperlyEscaped([c] + s) <==>
      (c == '~' ==> s != [] && (s[0] == '0' || s[0] == '1')) && ProperlyEscaped(s)
  {
    var t := [c] + s;
    assert t[1..] == s;
    assert t[0] == c && forall i | 0 < i < |t| :: t[i] == s[i - 1];
    if ProperlyEscaped(t) {
      assert c == '~' ==> t[0] == '~';
      forall i | 0 <= i < |s| && s[i] == '~' ensures i + 1 < |s| && (s[i + 1] == '0' || s[i + 1] == '1') {
        assert t[i + 1] == '~';
      }
    }
  }

  lemma {:induction false} FieldsAreEscaped(s: string)
    ensures (forall i | 0 <= i < |Fields(s)| :: ProperlyEscaped(Fields(s)[i])) <==> ProperlyEscaped(s)
    ensures Fields(s)[0] == [] <==> s == [] || s[0] == '/'
    ensures Fields(s)[0] != [] ==> Fields(s)[0][0] == s[0]
  {
    hide ProperlyEscaped;
    if s == [] {
      assert ProperlyEscaped([]) by { NothingEscaped(); }
    } else {
      var fs, c := Fields(s[1..]), s[0];
      FieldsAreEscaped(s[1..]);
      ProperlyEscapedCons(c, s[1..]);
      assert s == [c] + s[1..];
      if c == '/' {
        NothingEscaped();
        assert forall i | 0 < i < |Fields(s)| :: Fields(s)[i] == fs[i - 1];
        assert forall i | 0 <= i < |fs| :: fs[i] == Fields(s)[i + 1];
      } else {
        ProperlyEscapedCons(c, fs[0]);
        assert forall i | 0 < i < |fs| :: Fields(s)[i] == fs[i];
      }
    }
  }

  lemma NothingEscaped()
    ensures ProperlyEscaped([])
  {
  }

  lemma {:induction false} UnescapeAllFails(fs: seq<string>)
    ensures UnescapeAll(fs) == Err(DomainError) <==> exists i :: 0 <= i < |fs| && !ProperlyEscaped(fs[i])
    ensures UnescapeAll(fs).Ok? || UnescapeAll(fs) == Err(DomainError)
  {
    hide ProperlyEscaped, Unescape;
    if fs != [] {
      UnescapeAllFails(fs[1..]);
      assert forall i | 0 < i < |fs| :: fs[i] == fs[1..][i - 1];
      assert forall i | 0 <= i < |fs| - 1 :: fs[1..][i] == fs[i + 1];
    }
  }

  /** A pointer is refused, with `std::domain_error`, exactly if it is not empty and does not start with a slash, or
      holds a tilde that neither 0 nor 1 follows. */
  lemma SplitFails(s: string)
    ensures Split(s) == Err(DomainError) <==>
      s != "" && (s[0] != '/' || exists i :: 0 <= i < |s| && s[i] == '~' &&
                                        !(i + 1 < |s| && (s[i + 1] == '0' || s[i + 1] == '1')))
    ensures Split(s).Ok? || Split(s) == Err(DomainError)
  {
    if s != "" && s[0] == '/' {
      FieldsAreEscaped(s[1..]);
      UnescapeAllFails(Fields(s[1..]));
      ProperlyEscapedCons(s[0], s[1..]);
      assert s == [s[0]] + s[1..];
      assert !ProperlyEscaped(s) <==>
        exists i :: 0 <= i < |s| && s[i] == '~' && !(i + 1 < |s| && (s[i + 1] == '0' || s[i + 1] == '1'));
    }
  }
}
