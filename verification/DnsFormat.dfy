/** The bytes of DNS messages (section 4 of RFC 1035), and what is refused. */
module DnsFormat {
  import opened DnsWire
  import opened Numbers

  // ----- names -----

  function Dotted(labels: seq<string>): string
    requires labels != []
  {
    if |labels| == 1 then labels[0] else labels[0] + "." + Dotted(labels[1..])
  }

  predicate PlainLabel(l: string) {
    1 <= |l| < 256 && forall i | 0 <= i < |l| :: l[i] != '.'
  }

  /** Each label after its length. */
  function LabelBytes(labels: seq<string>): string
    requires forall i | 0 <= i < |labels| :: PlainLabel(labels[i])
  {
    if labels == [] then ""
    else
      assert PlainLabel(labels[0]);
      [|labels[0]| as char] + labels[0] + LabelBytes(labels[1..])
  }

  lemma {:induction false} DotAfterPlain(l: string, rest: string, i: nat)
    requires PlainLabel(l) && 1 <= i <= |l| && (rest == "" || rest[0] == '.')
    ensures DotAfter(l + rest, i) == |l|
    decreases |l| - i
  {
    if i < |l| {
      assert (l + rest)[i] == l[i];
      DotAfterPlain(l, rest, i + 1);
    }
  }

  lemma LabelEndOf(l: string, tail: string)
    requires PlainLabel(l) && (tail == "" || tail[0] == '.')
    ensures LabelEnd(l + tail) == |l|
  {
    DotAfterPlain(l, tail, 1);
  }

  lemma LowByteOf(n: nat)
    requires n < 256
    ensures LowByte(n) == n as char
  {
  }

  lemma LabelEndAlone(l: string)
    requires PlainLabel(l)
    ensures LabelEnd(l) == |l|
  {
    LabelEndOf(l, "");
    assert l + "" == l;
  }

  lemma LastLabel(l: string)
    requires PlainLabel(l)
    ensures EncodedLabels(l) == [|l| as char] + l + [0 as char]
  {
    hide LabelEnd, LowByte;
    LabelEndAlone(l);
    LowByteOf(|l|);
    LowByteOf(0);
    assert l[..|l|] == l;
  }

  lemma FirstOfLabels(l: string, more: string)
    requires PlainLabel(l)
    ensures EncodedLabels(l + ("." + more)) == [|l| as char] + l + EncodedLabels(more)
  {
    hide EncodedLabels, LabelEnd, LowByte;
    var tail := "." + more;
    var s := l + tail;
    LabelEndOf(l, tail);
    LowByteOf(|l|);
    Behind(l, more);
    EncodedLabelsAt(s, 0, |l|);
  }

  lemma Behind(l: string, more: string)
    ensures var s := l + ("." + more); s[0..] == s && s[0..|l|] == l && |l| < |s| && s[|l| + 1..] == more
  {
  }

  lemma {:induction false} WrittenLabels(labels: seq<string>)
    requires labels != [] && forall i | 0 <= i < |labels| :: PlainLabel(labels[i])
    ensures EncodedLabels(Dotted(labels)) == LabelBytes(labels) + [0 as char] && Dotted(labels) != ""
    decreases |labels|
  {
    hide EncodedLabels;
    var l, rest := labels[0], labels[1..];
    assert PlainLabel(l);
    if |labels| == 1 {
      LastLabel(l);
      assert LabelBytes(rest) == "";
    } else {
      FirstOfLabels(l, Dotted(rest));
      WrittenLabels(rest);
      var head := [|l| as char] + l;
      assert head + (LabelBytes(rest) + [0 as char]) == head + LabelBytes(rest) + [0 as char];
      assert Dotted(labels) == l + ("." + Dotted(rest));
    }
  }

  /** A name is written label by label, each after its length, with a zero at the end. */
  lemma WrittenName(labels: seq<string>)
    requires forall i | 0 <= i < |labels| :: PlainLabel(labels[i])
    ensures EncodedName(if labels == [] then "" else Dotted(labels)) == LabelBytes(labels) + [0 as char]
  {
    if labels != [] { WrittenLabels(labels); }
  }

  // ----- questions and records -----

  /** The bytes of a 16-bit number, high byte first. */
  function Two(n: nat): string {
    [(n / 0x100 % 0x100) as char, (n % 0x100) as char]
  }

  function Four(n: nat): string {
    Two(n / 0x1_0000) + Two(n)
  }

  lemma BigEndianBytes(n: nat)
    ensures BigEndian(n, 2) == Two(n) && BigEndian(n, 4) == Four(n)
  {
    assert n / 256 / 256 == n / 0x1_0000 && n / 0x1_0000 / 256 == n / 256 / 256 / 256;
    assert BigEndian(n, 0) == "";
    PairOf(n);
    PairOf(n / 0x1_0000);
    assert BigEndian(n, 4) == BigEndian(n / 256, 3) + [LowByte(n)];
    assert BigEndian(n / 256, 3) == BigEndian(n / 256 / 256, 2) + [LowByte(n / 256)];
  }

  lemma PairOf(n: nat)
    ensures BigEndian(n, 2) == Two(n)
  {
    assert BigEndian(n, 2) == BigEndian(n / 256, 1) + [LowByte(n)];
    assert BigEndian(n / 256, 1) == BigEndian(n / 256 / 256, 0) + [LowByte(n / 256)];
  }

  /** A question: name, type, class. */
  lemma WrittenQuery(q: Query)
    ensures EncodedQuery(q) == EncodedName(q.name) + (Two(q.qtype) + Two(q.qclass))
  {
    BigEndianBytes(q.qtype);
    BigEndianBytes(q.qclass);
  }

  /** The data of NS, CNAME, PTR and MX records is a name; any other data is written as it is. */
  function WrittenData(r: Resource): string {
    if r.rtype in {2, 5, 12, 15} then EncodedName(r.data) else r.data
  }

  /** A record: name, type, class, time to live, size of the rest, the preference of an MX record, data. */
  lemma WrittenResource(r: Resource)
    ensures var preference, data := if r.rtype == 15 then Two(r.preference) else "", WrittenData(r);
      EncodedResource(r) ==
        EncodedName(r.name)
        + (Two(r.rtype) + Two(r.rclass) + Four(r.ttl) + Two(|preference| + |data|) + (preference + data))
  {
    hide BigEndian, EncodedName;
    var preference, data := if r.rtype == 15 then Two(r.preference) else "", WrittenData(r);
    BigEndianBytes(r.rtype);
    BigEndianBytes(r.rclass);
    BigEndianBytes(r.ttl);
    BigEndianBytes(r.preference);
    BigEndianBytes(|preference| + |data|);
  }

  /** How the data of a record is read: 4 and 16 bytes for the address types 1 and 28, whatever the size field says; a
      name for the types 2, 5, 12, 15 and 39, which is left behind as far as the size field says; the parts of type 6;
      as many bytes as the size field says otherwise.  A size beyond the section is malformed for all of them. */
  lemma DataByType(s: string, n: nat, at: nat, size: nat, rtype: nat)
    requires at <= n <= |s|
    ensures size > n - at ==> ReadData(s, n, at, size, rtype) == Malformed
    ensures size <= n - at ==>
      var r, name := ReadData(s, n, at, size, rtype), ComposedName(s[at..]);
      && (rtype == 1 ==> r == if n - at < 4 then Malformed else Good(Item(s[at..at + 4], 4)))
      && (rtype == 28 ==> r == if n - at < 16 then Malformed else Good(Item(s[at..at + 16], 16)))
      && (rtype in {2, 5, 12, 15, 39} ==>
            r == if name.Good? then Good(Item(name.value.text, size)) else name.PropagateFailure())
      && (rtype == 6 ==> r == ReadAuthority(s, n, at))
      && (rtype !in {1, 2, 5, 6, 12, 15, 28, 39} ==> r == Good(Item(s[at..at + size], size)))
  {
    hide ComposedName, ReadAuthority;
  }

  // ----- what is refused -----

  lemma LabelIsTooLong(part: string, tail: string, output: string, length: nat)
    requires 1 <= |part| <= 63 && |output| + |part| + 1 > 255
    ensures ComposedFrom([LowByte(|part|)] + part + tail, output, length) == Malformed
  {
    var t := [LowByte(|part|)] + part + tail;
    assert t[0] as nat == |part|;
  }

  lemma {:induction false} LabelsAreTooLong(s: string, output: string, length: nat, more: string)
    requires ValidLabels(s) && |Joined(output, s)| > 255
    ensures ComposedFrom(EncodedLabels(s) + more, output, length) == Malformed
    decreases |s|
  {
    hide ComposedFrom, LabelEnd, LowByte, EncodedLabels, ValidLabels;
    var part, rest := FirstLabel(s);
    if LabelEnd(s) < |s| {
      assert EncodedLabels(s) + more == [LowByte(|part|)] + part + (EncodedLabels(rest) + more);
      if |output| + |part| + 1 > 255 {
        LabelIsTooLong(part, EncodedLabels(rest) + more, output, length);
      } else {
        LabelComposes(part, EncodedLabels(rest) + more, output, length);
        JoinedTwice(output, part, rest);
        LabelsAreTooLong(rest, Joined(output, part), length + 1 + |part|, more);
      }
    } else {
      assert EncodedLabels(s) + more == [LowByte(|part|)] + part + ([LowByte(0)] + more);
      LabelIsTooLong(part, [LowByte(0)] + more, output, length);
    }
  }

  /** A name of more than 255 characters is malformed. */
  lemma LongNameIsMalformed(name: string, more: string)
    requires ValidLabels(name) && |name| > 255
    ensures ComposedName(EncodedName(name) + more) == Malformed
  {
    hide ComposedFrom, EncodedLabels;
    LabelsAreTooLong(name, "", 0, more);
  }

  /** So is a label that does not fit into the message. */
  lemma CutLabelIsMalformed(n: nat, rest: string)
    requires 1 <= n <= 63 && |rest| < n
    ensures ComposedName([n as char] + rest) == Malformed && SkippedName([n as char] + rest) == Malformed
  {
  }

  /** A compression pointer takes two bytes and ends the name. */
  lemma PointerIsSkipped(c: char, rest: string)
    requires 0x40 <= c as int < 256
    ensures SkippedName([c] + rest) == if rest == "" then Malformed else Good(2)
  {
  }

  /** A question of which less than everything belongs to its section is malformed. */
  lemma CutQueryIsMalformed(q: Query, more: string, n: nat)
    requires ValidQuery(q) && n < |EncodedQuery(q)|
    ensures ReadQuery(EncodedQuery(q) + more, n) == Malformed
  {
    hide EncodedName, ValidName, ComposedName, BigEndian;
    var f := BigEndian(q.qtype, 2) + BigEndian(q.qclass, 2);
    NameRoundTrip(q.name, f + more);
    assert EncodedQuery(q) + more == EncodedName(q.name) + (f + more);
  }

  /** So is a record. */
  lemma CutResourceIsMalformed(r: Resource, more: string, n: nat)
    requires ValidResource(r) && n < |EncodedResource(r)|
    ensures ReadResource(EncodedResource(r) + more, n) == Malformed
  {
    hide *;
    ValidNameOf(r);
    var e, f, p, d := EncodedName(r.name), Fixed(r), Preference(r), EncodedData(r);
    var s := EncodedResource(r) + more;
    ResourceLayout(r);
    Slices(e, f, p, d, more);
    NameRoundTrip(r.name, f + (p + d) + more);
    DataSize(r);
    FixedRoundTrip(r, s, |e|);
    CutParts(r, s, n, |e|);
  }

  lemma CutParts(r: Resource, s: string, n: nat, at: nat)
    requires ComposedName(s) == Good(Name(r.name, at)) && at + 10 <= |s| && n <= |s|
    requires Read16(s, at) == r.rtype && Read16(s, at + 8) == |Preference(r)| + |EncodedData(r)| < UINT16_RANGE
    requires n < at + 10 + |Preference(r)| + |EncodedData(r)|
    ensures ReadResource(s, n) == Malformed
  {
    hide ComposedName, Read16, Read32, EncodedData, BigEndian;
    assert r.rtype == MX ==> |Preference(r)| == 2;
    assert r.rtype != MX ==> |Preference(r)| == 0;
    if r.rtype == MX && n >= at + 12 {
      assert (2 + |EncodedData(r)| + (UINT16_RANGE - 2)) % UINT16_RANGE == |EncodedData(r)|;
    }
  }
}
