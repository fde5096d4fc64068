/** UTF-8 byte sequences (section 4 of RFC 3629). */
module Utf8 {

  predicate InRange(c: char, lo: nat, hi: nat) {
    lo <= c as int <= hi
  }

  predicate Tail(c: char) {
    InRange(c, 0x80, 0xBF)
  }

  /** The length of the well-formed character a text starts with; 0 if there is none. */
  function CharLength(s: string): (n: nat)
    ensures n <= |s| && n <= 4
  {
    if s == [] then 0
    else if InRange(s[0], 0, 0x7F) then 1
    else if InRange(s[0], 0xC2, 0xDF) then
      if |s| >= 2 && Tail(s[1]) then 2 else 0
    else if InRange(s[0], 0xE0, 0xEF) then
      if |s| >= 3
         && InRange(s[1], if s[0] as int == 0xE0 then 0xA0 else 0x80, if s[0] as int == 0xED then 0x9F else 0xBF)
         && Tail(s[2])
      then 3 else 0
    else if InRange(s[0], 0xF0, 0xF4) then
      if |s| >= 4
         && InRange(s[1], if s[0] as int == 0xF0 then 0x90 else 0x80, if s[0] as int == 0xF4 then 0x8F else 0xBF)
         && Tail(s[2]) && Tail(s[3])
      then 4 else 0
    else 0
  }

  predicate WellFormed(s: string) {
    s == [] || (CharLength(s) > 0 && WellFormed(s[CharLength(s)..]))
  }

  /** A character is recognised whatever follows it. */
  lemma CharLengthAppend(s: string, more: string)
    requires CharLength(s) > 0
    ensures CharLength(s + more) == CharLength(s)
  {
  }

  lemma {:induction false} WellFormedAppend(s: string, more: string)
    requires WellFormed(s) && WellFormed(more)
    ensures WellFormed(s + more)
    decreases |s|
  {
    hide CharLength;
    if s == [] {
      assert s + more == more;
    } else {
      var n := CharLength(s);
      CharLengthAppend(s, more);
      WellFormedAppend(s[n..], more);
      assert (s + more)[n..] == s[n..] + more;
    }
  }

  /** Bytes of a character of more than one byte are all above 0x7F. */
  lemma MultiByteChar(s: string, i: nat)
    requires CharLength(s) > 1 && i < CharLength(s)
    ensures s[i] as int >= 0x80
  {
  }
}
