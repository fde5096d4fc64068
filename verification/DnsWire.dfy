/** The wire format of DNS messages (section 4 of RFC 1035): names, questions and resource records.  A `char`
    stands for one byte, addresses stand for their bytes. */
module DnsWire {
  import opened Numbers

  /** What reading yields.  Compression pointers and names that run past the buffer are not modelled. */
  datatype Reading<+T> = Good(value: T) | Malformed | Unmodelled {
    predicate IsFailure() {
      !Good?
    }

    function PropagateFailure<U>(): Reading<U>
      requires !Good?
    {
      if Malformed? then Malformed else Unmodelled
    }

    function Extract(): T
      requires Good?
    {
      value
    }
  }

  // ----- integers -----

  /** The low byte of a number: a narrowing cast to `uint8_t`. */
  function LowByte(n: nat): char {
    Byte(n % 256)
  }

  /** A number in network byte order. */
  function BigEndian(n: nat, width: nat): (s: string)
    ensures |s| == width
  {
    if width == 0 then "" else BigEndian(n / 256, width - 1) + [LowByte(n)]
  }

  function Read16(s: string, at: nat): nat
    requires at + 2 <= |s|
  {
    s[at] as nat * 256 + s[at + 1] as nat
  }

  function Read32(s: string, at: nat): nat
    requires at + 4 <= |s|
  {
    Read16(s, at) * 0x1_0000 + Read16(s, at + 2)
  }

  lemma ReadBe16(n: nat, s: string, at: nat)
    requires n < 0x1_0000 && at + 2 <= |s| && s[at..at + 2] == BigEndian(n, 2)
    ensures Read16(s, at) == n
  {
    assert BigEndian(n / 256, 1) == [LowByte(n / 256)];
    assert s[at] == s[at..at + 2][0] && s[at + 1] == s[at..at + 2][1];
  }

  lemma ReadBe32(n: nat, s: string, at: nat)
    requires n < 0x1_0000_0000 && at + 4 <= |s| && s[at..at + 4] == BigEndian(n, 4)
    ensures Read32(s, at) == n
  {
    var hi, lo := n / 0x1_0000, n % 0x1_0000;
    TwoHalves(n);
    hide BigEndian, Read16;
    assert s[at..at + 2] == s[at..at + 4][..2] == BigEndian(hi, 2);
    assert s[at + 2..at + 4] == s[at..at + 4][2..] == BigEndian(lo, 2);
    ReadBe16(hi, s, at);
    ReadBe16(lo, s, at + 2);
  }

  lemma TwoHalves(n: nat)
    ensures BigEndian(n, 4) == BigEndian(n / 0x1_0000, 2) + BigEndian(n % 0x1_0000, 2)
  {
    var q, r := n / 0x1_0000, n % 0x1_0000;
    assert n == q * 0x1_0000 + r;
    assert n / 256 == q * 256 + r / 256 && n / 256 / 256 == q;
    assert (n / 256) % 256 == (r / 256) % 256 && n % 256 == r % 256;
    assert BigEndian(n, 4) == BigEndian(n / 256, 3) + [LowByte(n)];
    assert BigEndian(n / 256, 3) == BigEndian(q, 2) + [LowByte(n / 256)];
    assert BigEndian(r, 2) == BigEndian(r / 256, 1) + [LowByte(r)];
    assert BigEndian(r / 256, 1) == [LowByte(r / 256)];
  }

  // ----- names -----

  /** The next dot of a name that starts with a label; its length if there is none.  The search begins behind
      the first character. */
  function DotAfter(s: string, i: nat): (j: nat)
    requires i <= |s|
    ensures i <= j <= |s| && forall k | i <= k < j :: s[k] != '.'
    ensures j < |s| ==> s[j] == '.'
    decreases |s| - i
  {
    if i == |s| || s[i] == '.' then i else DotAfter(s, i + 1)
  }

  function LabelEnd(s: string): (j: nat)
    ensures j <= |s|
  {
    if s == "" then 0 else DotAfter(s, 1)
  }

  /** The labels of a name, each after its length, up to the terminating zero. */
  function EncodedLabels(s: string): string
    decreases |s|
  {
    var i := LabelEnd(s);
    [LowByte(i)] + s[..i] + if i < |s| then EncodedLabels(s[i + 1..]) else [LowByte(0)]
  }

  /** `encode_domain_name`. */
  function EncodedName(name: string): string {
    if name == "" then [LowByte(0)] else EncodedLabels(name)
  }

  lemma EncodedLabelsAt(dn: string, last: nat, index: nat)
    requires last <= index <= |dn| && index - last == LabelEnd(dn[last..])
    ensures EncodedLabels(dn[last..]) ==
      [LowByte(index - last)] + dn[last..index] + if index < |dn| then EncodedLabels(dn[index + 1..]) else [LowByte(0)]
  {
    hide LabelEnd, LowByte;
    var s, i := dn[last..], index - last;
    assert s[..i] == dn[last..index];
    if index < |dn| {
      assert s[i + 1..] == dn[index + 1..];
    }
  }

  lemma Appended(output: string, size: string, part: string, rest: string)
    ensures output + (size + part + rest) == output + size + part + rest
  {
  }

  method EncodeDomainName(dn: string) returns (output: string)
    ensures output == EncodedName(dn)
  {
    hide EncodedLabels, LabelEnd, DotAfter, LowByte;
    output := "";
    if dn != "" {
      var last := 0;
      var index := DotAfter(dn, 1);
      DotAfterSuffix(dn, 0);
      assert dn[0..] == dn;
      while index < |dn|
        invariant last <= index <= |dn| && index - last == LabelEnd(dn[last..])
        invariant EncodedLabels(dn) == output + EncodedLabels(dn[last..])
        decreases |dn| - last
      {
        EncodedLabelsAt(dn, last, index);
        Appended(output, [LowByte(index - last)], dn[last..index], EncodedLabels(dn[index + 1..]));
        output := output + [LowByte(index - last)] + dn[last..index];
        last := index + 1;
        DotAfterSuffix(dn, last);
        index := if last < |dn| then DotAfter(dn, last + 1) else |dn|;
      }
      EncodedLabelsAt(dn, last, index);
      output := output + [LowByte(|dn| - last)] + dn[last..];
    }
    output := output + [LowByte(0)];
  }

  lemma {:induction false} DotAfterShift(s: string, n: nat, i: nat)
    requires n <= i <= |s|
    ensures DotAfter(s, i) == n + DotAfter(s[n..], i - n)
    decreases |s| - i
  {
    if i < |s| && s[i] != '.' {
      DotAfterShift(s, n, i + 1);
    }
  }

  lemma DotAfterSuffix(s: string, n: nat)
    requires n <= |s|
    ensures n < |s| ==> DotAfter(s, n + 1) == n + LabelEnd(s[n..])
    ensures n == |s| ==> LabelEnd(s[n..]) == 0
  {
    if n < |s| {
      DotAfterShift(s, n, n + 1);
    }
  }

  /** Labels of 1 to 63 bytes, none of them zero. */
  predicate ValidLabels(s: string)
    decreases |s|
  {
    var i := LabelEnd(s);
    && 1 <= i <= 63 && s[0] != '.' && (forall k | 0 <= k < i :: s[k] != '\0' && s[k] as nat < 256)
    && (i < |s| ==> ValidLabels(s[i + 1..]))
  }

  predicate ValidName(name: string) {
    |name| <= 255 && (name == "" || ValidLabels(name))
  }

  datatype Name = Name(text: string, length: nat)

  /** The text of labels that follow others. */
  function Joined(output: string, rest: string): string {
    output + (if output == "" then "" else ".") + rest
  }

  /** `compose_name` from the start of `s`, after `length` bytes that gave the text `output`. */
  function ComposedFrom(s: string, output: string, length: nat): Reading<Name>
    decreases |s|
  {
    if s == "" then Unmodelled
    else if s[0] == '\0' then Good(Name(output, length + 1))
    else if s[0] as nat >= 0x40 then Unmodelled
    else
      var size := s[0] as nat;
      if 1 + size > |s| || |output| + size + 1 > 255 then Malformed
      else ComposedFrom(s[1 + size..], Joined(output, s[1..1 + size]), length + 1 + size)
  }

  /** What is read from a character buffer: everything before the first zero. */
  function CString(s: string): string {
    if s == "" || s[0] == '\0' then "" else [s[0]] + CString(s[1..])
  }

  /** `compose_name` from the start of `s`, and how its callers read the buffer it fills. */
  function ComposedName(s: string): Reading<Name> {
    var name :- ComposedFrom(s, "", 0);
    Good(Name(CString(name.text), name.length))
  }

  lemma {:induction false} CStringOf(s: string)
    requires forall i | 0 <= i < |s| :: s[i] != '\0'
    ensures CString(s) == s
  {
    if s != "" {
      CStringOf(s[1..]);
      assert s == [s[0]] + s[1..];
    }
  }

  lemma {:induction false} ValidLabelsHaveNoZero(s: string)
    requires ValidLabels(s)
    ensures forall i | 0 <= i < |s| :: s[i] != '\0'
    decreases |s|
  {
    var n := LabelEnd(s);
    LabelsEnd(s);
    if n < |s| {
      ValidLabelsHaveNoZero(s[n + 1..]);
      assert forall i | n < i < |s| :: s[i] == s[n + 1..][i - n - 1];
    }
  }

  /** One round of the loop. */
  lemma ComposedStep(records: string, ptr: nat, output: string, length: nat)
    requires ptr <= |records|
    ensures ComposedFrom(records[ptr..], output, length) ==
      if ptr == |records| then Unmodelled
      else if records[ptr] == '\0' then Good(Name(output, length + 1))
      else if records[ptr] as nat >= 0x40 then Unmodelled
      else
        var size := records[ptr] as nat;
        if ptr + 1 + size > |records| || |output| + size + 1 > 255 then Malformed
        else
          var name := records[ptr + 1..ptr + 1 + size];
          ComposedFrom(records[ptr + 1 + size..], Joined(output, name), length + 1 + size)
  {
    if ptr < |records| && ptr + 1 + records[ptr] as nat <= |records| {
      var s, size := records[ptr..], records[ptr] as nat;
      assert s[1..1 + size] == records[ptr + 1..ptr + 1 + size] && s[1 + size..] == records[ptr + 1 + size..];
    }
  }

  method ComposeName(records: string, start: nat) returns (r: Reading<Name>)
    requires start <= |records|
    ensures r == ComposedName(records[start..])
  {
    hide ComposedFrom;
    var ptr := start;
    var output := "";
    ghost var whole := ComposedFrom(records[start..], "", 0);
    while ptr < |records| && records[ptr] != '\0'
      invariant start <= ptr <= |records| && whole == ComposedFrom(records[ptr..], output, ptr - start)
    {
      ComposedStep(records, ptr, output, ptr - start);
      if records[ptr] as nat >= 0x40 {
        return Unmodelled;
      }
      var size := records[ptr] as nat;
      ptr := ptr + 1;
      if ptr + size > |records| || |output| + size + 1 > 255 {
        return Malformed;
      }
      ghost var joined := Joined(output, records[ptr..ptr + size]);
      if output != "" {
        output := output + ".";
      }
      output := output + records[ptr..ptr + size];
      assert output == joined;
      ptr := ptr + size;
    }
    ComposedStep(records, ptr, output, ptr - start);
    if ptr == |records| {
      return Unmodelled;
    }
    return Good(Name(CString(output), ptr + 1 - start));
  }

  /** One label. */
  lemma LabelComposes(part: string, tail: string, output: string, length: nat)
    requires 1 <= |part| <= 63 && |output| + |part| + 1 <= 255
    ensures ComposedFrom([LowByte(|part|)] + part + tail, output, length)
      == ComposedFrom(tail, Joined(output, part), length + 1 + |part|)
  {
    var t := [LowByte(|part|)] + part + tail;
    assert t[0] as nat == |part| && t[1..1 + |part|] == part && t[1 + |part|..] == tail;
  }

  lemma JoinedTwice(output: string, part: string, rest: string)
    requires part != ""
    ensures Joined(Joined(output, part), rest) == Joined(output, part + "." + rest)
  {
  }

  lemma FirstLabel(s: string) returns (part: string, rest: string)
    requires ValidLabels(s)
    ensures 1 <= |part| <= 63
    ensures if LabelEnd(s) < |s| then
        && s == part + "." + rest && ValidLabels(rest)
        && EncodedLabels(s) == [LowByte(|part|)] + part + EncodedLabels(rest)
      else
        s == part && EncodedLabels(s) == [LowByte(|part|)] + part + [LowByte(0)]
  {
    var i := LabelEnd(s);
    part := s[..i];
    if i < |s| {
      rest := s[i + 1..];
      LabelsEnd(s);
    } else {
      rest := "";
    }
  }

  lemma {:induction false} LabelsCompose(s: string, output: string, length: nat, more: string)
    requires ValidLabels(s) && |Joined(output, s)| <= 255
    ensures ComposedFrom(EncodedLabels(s) + more, output, length)
      == Good(Name(Joined(output, s), length + |EncodedLabels(s)|))
    decreases |s|
  {
    hide ComposedFrom, LabelEnd, LowByte, EncodedLabels, ValidLabels;
    var part, rest := FirstLabel(s);
    if LabelEnd(s) < |s| {
      var e := EncodedLabels(rest);
      JoinedTwice(output, part, rest);
      assert EncodedLabels(s) + more == [LowByte(|part|)] + part + (e + more);
      LabelComposes(part, e + more, output, length);
      LabelsCompose(rest, Joined(output, part), length + 1 + |part|, more);
    } else {
      assert EncodedLabels(s) + more == [LowByte(|part|)] + part + ([LowByte(0)] + more);
      LabelComposes(part, [LowByte(0)] + more, output, length);
      ZeroComposes(more, Joined(output, part), length + 1 + |part|);
    }
  }

  lemma LabelsEnd(s: string)
    ensures LabelEnd(s) < |s| ==> s[LabelEnd(s)] == '.'
  {
  }

  lemma ZeroComposes(more: string, output: string, length: nat)
    ensures ComposedFrom([LowByte(0)] + more, output, length) == Good(Name(output, length + 1))
  {
  }

  /** Every valid name is read back from its encoding, whatever follows. */
  lemma NameRoundTrip(name: string, more: string)
    requires ValidName(name)
    ensures ComposedName(EncodedName(name) + more) == Good(Name(name, |EncodedName(name)|))
  {
    hide ComposedFrom, EncodedLabels, ValidLabels;
    if name == "" {
      ZeroComposes(more, "", 0);
    } else {
      assert Joined("", name) == name;
      LabelsCompose(name, "", 0, more);
      ValidLabelsHaveNoZero(name);
      CStringOf(name);
    }
  }

  // ----- questions and resource records -----

  datatype Query = Query(name: string, qtype: nat, qclass: nat)

  datatype Resource = Resource(name: string, data: string, rtype: nat, rclass: nat, ttl: nat, preference: nat)

  const A: nat := 1
  const NS: nat := 2
  const CNAME: nat := 5
  const SOA: nat := 6
  const PTR: nat := 12
  const MX: nat := 15
  const AAAA: nat := 28
  const DNAM: nat := 39

  /** `contains_dname`. */
  predicate ContainsName(rtype: nat) {
    rtype == MX || rtype == CNAME || rtype == PTR || rtype == NS
  }

  predicate ValidQuery(q: Query) {
    ValidName(q.name) && q.qtype < UINT16_RANGE && q.qclass < UINT16_RANGE
  }

  /** The name a text starts with; the root if there is none. */
  function LeadingName(s: string): string {
    var name := ComposedName(s);
    if name.Good? then name.value.text else ""
  }

  predicate StartsWithName(s: string) {
    ValidName(LeadingName(s)) && EncodedName(LeadingName(s)) <= s
  }

  /** What follows the name a text starts with. */
  function AfterName(s: string): string
    requires StartsWithName(s)
  {
    s[|EncodedName(LeadingName(s))|..]
  }

  /** The data of an SOA record: two encoded names and five 32-bit numbers. */
  predicate AuthorityData(data: string) {
    StartsWithName(data) && StartsWithName(AfterName(data)) && |AfterName(AfterName(data))| == SOA_NUMBERS
  }

  const SOA_NUMBERS: nat := 20

  /** Records that survive: all but DNAM, with data that fits the type. */
  predicate ValidResource(r: Resource) {
    && ValidName(r.name)
    && r.rtype < UINT16_RANGE && r.rclass < UINT16_RANGE && r.ttl < 0x1_0000_0000 && r.preference < UINT16_RANGE
    && r.rtype != DNAM
    && (r.rtype != MX ==> r.preference == 0)
    && (if r.rtype == A then |r.data| == 4
        else if r.rtype == AAAA then |r.data| == 16
        else if ContainsName(r.rtype) then ValidName(r.data)
        else if r.rtype == SOA then AuthorityData(r.data)
        else |r.data| < UINT16_RANGE)
  }

  function EncodedQuery(q: Query): string {
    EncodedName(q.name) + (BigEndian(q.qtype, 2) + BigEndian(q.qclass, 2))
  }

  function EncodedData(r: Resource): string {
    if ContainsName(r.rtype) then EncodedName(r.data) else r.data
  }

  function Preference(r: Resource): string {
    if r.rtype == MX then BigEndian(r.preference, 2) else ""
  }

  /** Type, class, time to live and the size of what follows. */
  function Fixed(r: Resource): (s: string)
    ensures |s| == 10
  {
    BigEndian(r.rtype, 2) + BigEndian(r.rclass, 2) + BigEndian(r.ttl, 4)
    + BigEndian(|Preference(r)| + |EncodedData(r)|, 2)
  }

  function EncodedResource(r: Resource): string {
    EncodedName(r.name) + (Fixed(r) + (Preference(r) + EncodedData(r)))
  }

  function EncodedQueries(qs: seq<Query>): string {
    if qs == [] then "" else EncodedQuery(qs[0]) + EncodedQueries(qs[1..])
  }

  function EncodedResources(rs: seq<Resource>): string {
    if rs == [] then "" else EncodedResource(rs[0]) + EncodedResources(rs[1..])
  }

  lemma {:induction false} EncodedQueriesAppend(qs: seq<Query>, q: Query)
    ensures EncodedQueries(qs + [q]) == EncodedQueries(qs) + EncodedQuery(q)
  {
    hide EncodedQuery;
    if qs == [] {
      assert qs + [q] == [q] && [q][1..] == [];
    } else {
      EncodedQueriesAppend(qs[1..], q);
      assert (qs + [q])[1..] == qs[1..] + [q];
    }
  }

  lemma {:induction false} EncodedResourcesAppend(rs: seq<Resource>, r: Resource)
    ensures EncodedResources(rs + [r]) == EncodedResources(rs) + EncodedResource(r)
  {
    hide EncodedResource;
    if rs == [] {
      assert rs + [r] == [r] && [r][1..] == [];
    } else {
      EncodedResourcesAppend(rs[1..], r);
      assert (rs + [r])[1..] == rs[1..] + [r];
    }
  }

  // ----- reading them -----

  datatype Item<+T> = Item(value: T, length: nat)

  /** One question from a section that has `n` bytes left. */
  function ReadQuery(s: string, n: nat): (r: Reading<Item<Query>>)
    requires n <= |s|
    ensures r.Good? ==> 0 < r.value.length <= n
  {
    var name :- ComposedName(s);
    if n < name.length + 4 then Malformed
    else Good(Item(Query(name.text, Read16(s, name.length), Read16(s, name.length + 2)), name.length + 4))
  }

  function ReadQueries(s: string, n: nat): Reading<seq<Query>>
    requires n <= |s|
    decreases n
  {
    if n == 0 then Good([])
    else
      var q :- ReadQuery(s, n);
      var rest :- ReadQueries(s[q.length..], n - q.length);
      Good([q.value] + rest)
  }

  /** The data of an SOA record is put together again from its parts, whatever its size field says. */
  function ReadAuthority(s: string, n: nat, at: nat): (r: Reading<Item<string>>)
    requires at <= n <= |s|
    ensures r.Good? ==> r.value.length <= n - at
  {
    var mname :- ComposedName(s[at..]);
    var k := at + mname.length;
    if k > n then Malformed
    else
      var rname :- ComposedName(s[k..]);
      var j := k + rname.length;
      if j + SOA_NUMBERS > n then Malformed
      else Good(Item(EncodedName(mname.text) + EncodedName(rname.text) + s[j..j + SOA_NUMBERS], j + SOA_NUMBERS - at))
  }

  /** The data of a record, from `at` on; `size` is what its size field has left. */
  function ReadData(s: string, n: nat, at: nat, size: nat, rtype: nat): (r: Reading<Item<string>>)
    requires at <= n <= |s|
    ensures r.Good? ==> r.value.length <= n - at
  {
    if size > n - at then Malformed
    else if rtype == AAAA then
      if n - at < 16 then Malformed else Good(Item(s[at..at + 16], 16))
    else if rtype == A then
      if n - at < 4 then Malformed else Good(Item(s[at..at + 4], 4))
    else if ContainsName(rtype) || rtype == DNAM then
      var name :- ComposedName(s[at..]);
      Good(Item(name.text, size))
    else if rtype == SOA then ReadAuthority(s, n, at)
    else Good(Item(s[at..at + size], size))
  }

  /** One record; the size field of an MX record counts its preference, and 16 bits may wrap. */
  function ReadResource(s: string, n: nat): (r: Reading<Item<Resource>>)
    requires n <= |s|
    ensures r.Good? ==> 0 < r.value.length <= n
  {
    var name :- ComposedName(s);
    var at := name.length;
    if n < at + 10 then Malformed
    else
      var rtype, rclass, ttl, size := Read16(s, at), Read16(s, at + 2), Read32(s, at + 4), Read16(s, at + 8);
      if rtype == MX then
        if n < at + 12 then Malformed
        else
          var data :- ReadData(s, n, at + 12, (size + (UINT16_RANGE - 2)) % UINT16_RANGE, rtype);
          Good(Item(Resource(name.text, data.value, rtype, rclass, ttl, Read16(s, at + 10)), at + 12 + data.length))
      else
        var data :- ReadData(s, n, at + 10, size, rtype);
        Good(Item(Resource(name.text, data.value, rtype, rclass, ttl, 0), at + 10 + data.length))
  }

  /** `convert_records`. */
  function ReadResources(s: string, n: nat): Reading<seq<Resource>>
    requires n <= |s|
    decreases n
  {
    if n == 0 then Good([])
    else
      var r :- ReadResource(s, n);
      var rest :- ReadResources(s[r.length..], n - r.length);
      Good([r.value] + rest)
  }

  lemma QueryRoundTrip(q: Query, more: string, n: nat)
    requires ValidQuery(q) && |EncodedQuery(q)| <= n <= |EncodedQuery(q) + more|
    ensures ReadQuery(EncodedQuery(q) + more, n) == Good(Item(q, |EncodedQuery(q)|))
  {
    hide EncodedName, ValidName, ComposedName, BigEndian, Read16;
    var s, e := EncodedQuery(q) + more, EncodedName(q.name);
    NameRoundTrip(q.name, BigEndian(q.qtype, 2) + BigEndian(q.qclass, 2) + more);
    assert s == e + (BigEndian(q.qtype, 2) + BigEndian(q.qclass, 2) + more);
    ReadBe16(q.qtype, s, |e|);
    ReadBe16(q.qclass, s, |e| + 2);
  }

  lemma {:induction false} QueriesRoundTrip(qs: seq<Query>, more: string)
    requires forall i | 0 <= i < |qs| :: ValidQuery(qs[i])
    ensures ReadQueries(EncodedQueries(qs) + more, |EncodedQueries(qs)|) == Good(qs)
  {
    hide EncodedQuery, ReadQuery, ReadQueries, ValidQuery;
    if qs == [] {
      NothingRead(more);
      assert "" + more == more;
    } else {
      var e, rest := EncodedQuery(qs[0]), EncodedQueries(qs[1..]);
      var s := e + (rest + more);
      assert EncodedQueries(qs) + more == s && s[|e|..] == rest + more;
      QueryRoundTrip(qs[0], rest + more, |e + rest|);
      QueriesRoundTrip(qs[1..], more);
      ReadQueriesOne(s, |e + rest|, Item(qs[0], |e|));
      assert [qs[0]] + qs[1..] == qs;
    }
  }

  lemma ReadQueriesOne(s: string, n: nat, item: Item<Query>)
    requires 0 < n <= |s| && ReadQuery(s, n) == Good(item)
    ensures ReadQueries(s, n) == Prepended([item.value], ReadQueries(s[item.length..], n - item.length))
  {
    hide ReadQuery;
  }

  /** The fixed fields of a record are read back. */
  lemma FixedRoundTrip(r: Resource, s: string, at: nat)
    requires ValidResource(r) && |Preference(r)| + |EncodedData(r)| < UINT16_RANGE
    requires at + 10 <= |s| && s[at..at + 10] == Fixed(r)
    ensures Read16(s, at) == r.rtype && Read16(s, at + 2) == r.rclass && Read32(s, at + 4) == r.ttl
    ensures Read16(s, at + 8) == |Preference(r)| + |EncodedData(r)|
  {
    hide BigEndian, Read16, Read32, EncodedData, Preference, ValidName;
    var size := |Preference(r)| + |EncodedData(r)|;
    var a, b, c, d := BigEndian(r.rtype, 2), BigEndian(r.rclass, 2), BigEndian(r.ttl, 4), BigEndian(size, 2);
    FourFields(s, at, a, b, c, d);
    ReadBe16(r.rtype, s, at);
    ReadBe16(r.rclass, s, at + 2);
    ReadBe32(r.ttl, s, at + 4);
    ReadBe16(size, s, at + 8);
  }

  lemma FourFields(s: string, at: nat, a: string, b: string, c: string, d: string)
    requires |a| == |b| == |d| == 2 && |c| == 4 && at + 10 <= |s| && s[at..at + 10] == a + b + c + d
    ensures s[at..at + 2] == a && s[at + 2..at + 4] == b && s[at + 4..at + 8] == c && s[at + 8..at + 10] == d
  {
    var f := s[at..at + 10];
    SubSlice(s, at, 10, 0, 2);
    SubSlice(s, at, 10, 2, 4);
    SubSlice(s, at, 10, 4, 8);
    SubSlice(s, at, 10, 8, 10);
    assert f[0..2] == a && f[2..4] == b && f[4..8] == c && f[8..10] == d;
  }

  lemma SubSlice(s: string, at: nat, n: nat, i: nat, j: nat)
    requires at + n <= |s| && i <= j <= n
    ensures s[at..at + n][i..j] == s[at + i..at + j]
  {
    var slice, direct := s[at..at + n][i..j], s[at + i..at + j];
    forall k | 0 <= k < j - i ensures slice[k] == direct[k] {
      assert s[at..at + n][i + k] == s[at + (i + k)];
    }
  }

  lemma StartsWithNameOf(name: string, more: string)
    requires ValidName(name)
    ensures StartsWithName(EncodedName(name) + more) && AfterName(EncodedName(name) + more) == more
  {
    hide EncodedName, ValidName, ComposedName;
    NameRoundTrip(name, more);
  }

  /** Two valid names and five numbers are the data of an SOA record. */
  lemma AuthorityDataOf(mname: string, rname: string, numbers: string)
    requires ValidName(mname) && ValidName(rname) && |numbers| == 20
    ensures AuthorityData(EncodedName(mname) + (EncodedName(rname) + numbers))
  {
    hide EncodedName, ValidName, StartsWithName, AfterName;
    StartsWithNameOf(mname, EncodedName(rname) + numbers);
    StartsWithNameOf(rname, numbers);
  }

  lemma AuthorityRoundTrip(data: string, s: string, n: nat, at: nat, more: string)
    requires AuthorityData(data) && at + |data| <= n <= |s| && s[at..] == data + more
    ensures ReadAuthority(s, n, at) == Good(Item(data, |data|))
  {
    hide EncodedName, ValidName, ReadAuthority, LeadingName;
    var mname, rname := LeadingName(data), LeadingName(AfterName(data));
    assert data[..|EncodedName(mname)| + |EncodedName(rname)|] == EncodedName(mname) + EncodedName(rname);
    NamedAuthorityRoundTrip(data, mname, rname, s, n, at, more);
  }

  lemma NamedAuthorityRoundTrip(data: string, mname: string, rname: string, s: string, n: nat, at: nat, more: string)
    requires ValidName(mname) && ValidName(rname)
    requires |data| == |EncodedName(mname)| + |EncodedName(rname)| + SOA_NUMBERS
    requires EncodedName(mname) + EncodedName(rname) <= data
    requires at + |data| <= n <= |s| && s[at..] == data + more
    ensures ReadAuthority(s, n, at) == Good(Item(data, |data|))
  {
    hide EncodedName, ValidName, ReadAuthority, ComposedName;
    var a, b := EncodedName(mname), EncodedName(rname);
    var rest := data[|a| + |b|..] + more;
    AuthorityParts(data, s, at, a, b, more);
    NameRoundTrip(mname, b + rest);
    NameRoundTrip(rname, rest);
    AuthorityIsRead(s, n, at, mname, rname, |a|, |b|);
  }

  lemma AuthorityParts(data: string, s: string, at: nat, a: string, b: string, more: string)
    requires a + b <= data && |data| == |a| + |b| + SOA_NUMBERS && at <= |s| && s[at..] == data + more
    ensures var numbers := data[|a| + |b|..]; var k := at + |a|; var j := k + |b|;
      && j + SOA_NUMBERS <= |s|
      && s[at..] == a + (b + (numbers + more)) && s[k..] == b + (numbers + more)
      && s[j..j + SOA_NUMBERS] == numbers && a + b + numbers == data
  {
    var numbers := data[|a| + |b|..];
    assert data == a + b + numbers;
    var rest := numbers + more;
    assert s[at..] == a + (b + rest);
    assert s[at + |a|..] == s[at..][|a|..] == b + rest;
    assert s[at + |a| + |b|..] == s[at + |a|..][|b|..] == rest;
    assert s[at + |a| + |b|..at + |a| + |b| + SOA_NUMBERS] == rest[..SOA_NUMBERS] == numbers;
  }

  lemma AuthorityIsRead(s: string, n: nat, at: nat, mname: string, rname: string, a: nat, b: nat)
    requires at + a + b + SOA_NUMBERS <= n <= |s|
    requires ComposedName(s[at..]) == Good(Name(mname, a)) && ComposedName(s[at + a..]) == Good(Name(rname, b))
    ensures var j := at + a + b;
      ReadAuthority(s, n, at) ==
        Good(Item(EncodedName(mname) + EncodedName(rname) + s[j..j + SOA_NUMBERS], a + b + SOA_NUMBERS))
  {
    hide ComposedName, EncodedName;
  }

  /** So is the data. */
  lemma DataRoundTrip(r: Resource, s: string, n: nat, at: nat, more: string)
    requires ValidResource(r) && at + |EncodedData(r)| <= n <= |s| && s[at..] == EncodedData(r) + more
    ensures ReadData(s, n, at, |EncodedData(r)|, r.rtype) == Good(Item(r.data, |EncodedData(r)|))
  {
    hide EncodedName, ValidName, ComposedName, ReadAuthority, AuthorityData;
    var e := EncodedData(r);
    assert s[at..at + |e|] == s[at..][..|e|] == e;
    if ContainsName(r.rtype) {
      NameRoundTrip(r.data, more);
    } else if r.rtype == SOA {
      AuthorityRoundTrip(r.data, s, n, at, more);
    }
  }

  lemma {:induction false} EncodedNameBound(name: string)
    requires ValidName(name)
    ensures |EncodedName(name)| <= 257
  {
    if name != "" {
      EncodedLabelsLength(name);
    }
  }

  lemma {:induction false} EncodedLabelsLength(s: string)
    ensures |EncodedLabels(s)| == |s| + 2
    decreases |s|
  {
    hide LabelEnd, LowByte;
    var i := LabelEnd(s);
    if i < |s| {
      EncodedLabelsLength(s[i + 1..]);
    }
  }

  /** A record whose parts are where they belong. */
  lemma PartsAreRead(r: Resource, s: string, n: nat, at: nat, more: string)
    requires ValidResource(r) && ComposedName(s) == Good(Name(r.name, at))
    requires var k := at + 10 + |Preference(r)|;
      && k + |EncodedData(r)| <= n <= |s|
      && s[at..at + 10] == Fixed(r) && s[at + 10..k] == Preference(r) && s[k..] == EncodedData(r) + more
    ensures ReadResource(s, n) == Good(Item(r, at + 10 + |Preference(r)| + |EncodedData(r)|))
  {
    hide ComposedName, BigEndian, Read16, Read32, ReadData, EncodedData, Fixed, ContainsName, ValidName;
    DataSize(r);
    FixedRoundTrip(r, s, at);
    DataRoundTrip(r, s, n, at + 10 + |Preference(r)|, more);
    if r.rtype == MX {
      ReadBe16(r.preference, s, at + 10);
      assert (2 + |EncodedData(r)| + (UINT16_RANGE - 2)) % UINT16_RANGE == |EncodedData(r)|;
    }
  }

  /** Every valid record is read back from its bytes, whatever follows. */
  lemma ResourceRoundTrip(r: Resource, more: string, n: nat)
    requires ValidResource(r) && |EncodedResource(r)| <= n <= |EncodedResource(r) + more|
    ensures ReadResource(EncodedResource(r) + more, n) == Good(Item(r, |EncodedResource(r)|))
  {
    hide *;
    ValidNameOf(r);
    var e, f, p, d := EncodedName(r.name), Fixed(r), Preference(r), EncodedData(r);
    ResourceLayout(r);
    Slices(e, f, p, d, more);
    NameRoundTrip(r.name, f + (p + d) + more);
    PartsAreRead(r, EncodedResource(r) + more, n, |e|, more);
  }

  lemma ResourceLayout(r: Resource)
    ensures EncodedResource(r) == EncodedName(r.name) + (Fixed(r) + (Preference(r) + EncodedData(r)))
  {
  }

  lemma Slices(e: string, f: string, p: string, d: string, more: string)
    ensures var s := e + (f + (p + d)) + more; var i := |e| + |f|; var j := i + |p|;
      && s == e + (f + (p + d) + more)
      && s[|e|..i] == f && s[i..j] == p && s[j..] == d + more
  {
  }

  lemma DataSize(r: Resource)
    requires ValidResource(r)
    ensures |Preference(r)| + |EncodedData(r)| < UINT16_RANGE
  {
    hide EncodedName, ValidName, AuthorityData;
    if ContainsName(r.rtype) { EncodedNameBound(r.data); }
    if r.rtype == SOA { AuthorityBound(r.data); }
  }

  lemma AuthorityBound(data: string)
    requires AuthorityData(data)
    ensures |data| < UINT16_RANGE
  {
    hide EncodedName, ValidName, LeadingName;
    EncodedNameBound(LeadingName(data));
    EncodedNameBound(LeadingName(AfterName(data)));
  }

  /** A DNAM record is written with its data as it is but read as if a name had been encoded: encoded data comes
      back decoded, so it never comes back unchanged. */
  lemma DnamIsDecoded(r: Resource, name: string, more: string)
    requires ValidName(name) && r.rtype == DNAM && r.data == EncodedName(name)
    ensures var s := EncodedData(r) + more;
      ReadData(s, |s|, 0, |EncodedData(r)|, r.rtype) == Good(Item(name, |EncodedData(r)|)) && name != r.data
  {
    hide EncodedLabels, ComposedName, ValidLabels;
    var s := r.data + more;
    NameRoundTrip(name, more);
    assert s[0..] == s;
    if name != "" { EncodedLabelsLength(name); }
  }

  lemma {:induction false} ResourcesRoundTrip(rs: seq<Resource>, more: string)
    requires forall i | 0 <= i < |rs| :: ValidResource(rs[i])
    ensures ReadResources(EncodedResources(rs) + more, |EncodedResources(rs)|) == Good(rs)
  {
    hide EncodedResource, ReadResource, ReadResources, ValidResource;
    if rs == [] {
      NothingRead(more);
      assert "" + more == more;
    } else {
      var e, rest := EncodedResource(rs[0]), EncodedResources(rs[1..]);
      var s := e + (rest + more);
      assert EncodedResources(rs) + more == s && s[|e|..] == rest + more;
      ResourceRoundTrip(rs[0], rest + more, |e + rest|);
      ResourcesRoundTrip(rs[1..], more);
      ReadResourcesOne(s, |e + rest|, Item(rs[0], |e|));
      assert [rs[0]] + rs[1..] == rs;
    }
  }

  lemma ReadResourcesOne(s: string, n: nat, item: Item<Resource>)
    requires 0 < n <= |s| && ReadResource(s, n) == Good(item)
    ensures ReadResources(s, n) == Prepended([item.value], ReadResources(s[item.length..], n - item.length))
  {
    hide ReadResource;
  }

  // ----- skipping over sections -----

  /** `skip_to_dname_end`: how many bytes the name takes; a compression pointer takes two. */
  function SkippedName(s: string): (r: Reading<nat>)
    ensures r.Good? ==> r.value <= |s|
    decreases |s|
  {
    if s == "" then Good(0)
    else if s[0] == '\0' then Good(1)
    else if s[0] as nat >= 0x40 then if |s| < 2 then Malformed else Good(2)
    else if 1 + s[0] as nat > |s| then Malformed
    else
      var rest :- SkippedName(s[1 + s[0] as nat..]);
      Good(1 + s[0] as nat + rest)
  }

  /** The loop over the questions. */
  function SkippedQueries(s: string, count: nat): (r: Reading<nat>)
    ensures r.Good? ==> r.value <= |s|
    decreases count
  {
    if count == 0 then Good(0)
    else
      var n :- SkippedName(s);
      if n + 4 > |s| then Malformed
      else
        var rest :- SkippedQueries(s[n + 4..], count - 1);
        Good(n + 4 + rest)
  }

  /** `skip_to_section_end`. */
  function SkippedRecords(s: string, count: nat): (r: Reading<nat>)
    ensures r.Good? ==> r.value <= |s|
    decreases count
  {
    if count == 0 then Good(0)
    else
      var n :- SkippedName(s);
      if n + 10 > |s| then Malformed
      else
        var size := Read16(s, n + 8);
        if n + 10 + size > |s| then Malformed
        else
          var rest :- SkippedRecords(s[n + 10 + size..], count - 1);
          Good(n + 10 + size + rest)
  }

  lemma LabelIsSkipped(part: string, tail: string)
    requires 1 <= |part| <= 63
    ensures SkippedName([LowByte(|part|)] + part + tail) == AfterLabel(|part|, SkippedName(tail))
  {
    ByteValue(|part|);
    var c := LowByte(|part|);
    hide SkippedName, LowByte;
    HeadAndTail(c, part, tail);
    SkippedLabel([c] + part + tail, |part|, tail);
  }

  function AfterLabel(n: nat, rest: Reading<nat>): Reading<nat> {
    if rest.Good? then Good(1 + n + rest.value) else rest
  }

  lemma HeadAndTail(c: char, part: string, tail: string)
    ensures var t := [c] + part + tail; |t| >= 1 + |part| && t[0] == c && t[1 + |part|..] == tail
  {
  }

  lemma SkippedLabel(t: string, n: nat, tail: string)
    requires 1 <= n <= 63 && 1 + n <= |t| && t[0] as nat == n && t[1 + n..] == tail
    ensures SkippedName(t) == AfterLabel(n, SkippedName(tail))
  {
  }

  lemma ByteValue(n: nat)
    requires n < 256
    ensures LowByte(n) as nat == n
  {
  }

  lemma ZeroIsSkipped(more: string)
    ensures SkippedName([LowByte(0)] + more) == Good(1)
  {
  }

  lemma {:induction false} LabelsAreSkipped(s: string, more: string)
    requires ValidLabels(s)
    ensures SkippedName(EncodedLabels(s) + more) == Good(|EncodedLabels(s)|)
    decreases |s|
  {
    hide LabelEnd, EncodedLabels, ValidLabels, SkippedName, LowByte;
    var part, rest := FirstLabel(s);
    var t := EncodedLabels(s) + more;
    if LabelEnd(s) < |s| {
      assert t == [LowByte(|part|)] + part + (EncodedLabels(rest) + more);
      LabelIsSkipped(part, EncodedLabels(rest) + more);
      LabelsAreSkipped(rest, more);
    } else {
      assert t == [LowByte(|part|)] + part + ([LowByte(0)] + more);
      LabelIsSkipped(part, [LowByte(0)] + more);
      ZeroIsSkipped(more);
    }
  }

  lemma NameIsSkipped(name: string, more: string)
    requires ValidName(name)
    ensures SkippedName(EncodedName(name) + more) == Good(|EncodedName(name)|)
  {
    if name != "" {
      LabelsAreSkipped(name, more);
    }
  }

  lemma {:induction false} QueriesAreSkipped(qs: seq<Query>, more: string)
    requires forall i | 0 <= i < |qs| :: ValidQuery(qs[i])
    ensures SkippedQueries(EncodedQueries(qs) + more, |qs|) == Good(|EncodedQueries(qs)|)
  {
    hide EncodedName, ValidName, SkippedName, BigEndian;
    if qs != [] {
      var q, e, rest := qs[0], EncodedName(qs[0].name), EncodedQueries(qs[1..]);
      var s := EncodedQueries(qs) + more;
      var f := BigEndian(q.qtype, 2) + BigEndian(q.qclass, 2);
      assert s == e + (f + (rest + more));
      NameIsSkipped(q.name, f + (rest + more));
      assert s[|e| + 4..] == rest + more;
      QueriesAreSkipped(qs[1..], more);
    }
  }

  lemma RecordsSkipOne(s: string, count: nat, at: nat, size: nat)
    requires count > 0 && SkippedName(s) == Good(at) && at + 10 + size <= |s| && Read16(s, at + 8) == size
    ensures SkippedRecords(s, count) ==
      var n := SkippedRecords(s[at + 10 + size..], count - 1); if n.Good? then Good(at + 10 + size + n.value) else n
  {
    hide SkippedName, Read16;
  }

  lemma {:induction false} RecordsAreSkipped(rs: seq<Resource>, more: string)
    requires forall i | 0 <= i < |rs| :: ValidResource(rs[i])
    ensures SkippedRecords(EncodedResources(rs) + more, |rs|) == Good(|EncodedResources(rs)|)
  {
    hide EncodedResource, ValidResource, SkippedRecords, Read16, SkippedName;
    if rs == [] {
      NoRecordsSkipped(more);
      assert "" + more == more;
    } else {
      var r, rest := rs[0], EncodedResources(rs[1..]);
      var s := EncodedResource(r) + (rest + more);
      assert EncodedResources(rs) + more == s;
      RecordIsSkipped(r, |rs|, rest + more);
      RecordsAreSkipped(rs[1..], more);
    }
  }

  lemma NoRecordsSkipped(s: string)
    ensures SkippedRecords(s, 0) == Good(0)
  {
  }

  lemma RecordIsSkipped(r: Resource, count: nat, tail: string)
    requires ValidResource(r) && count > 0
    ensures SkippedRecords(EncodedResource(r) + tail, count) ==
      var n := SkippedRecords(tail, count - 1); if n.Good? then Good(|EncodedResource(r)| + n.value) else n
  {
    hide *;
    var e, f, p, d := EncodedName(r.name), Fixed(r), Preference(r), EncodedData(r);
    var s := EncodedResource(r) + tail;
    ResourceLayout(r);
    Slices(e, f, p, d, tail);
    ValidNameOf(r);
    NameIsSkipped(r.name, f + (p + d) + tail);
    DataSize(r);
    FixedRoundTrip(r, s, |e|);
    assert s[|e| + 10 + (|p| + |d|)..] == tail;
    RecordsSkipOne(s, count, |e|, |p| + |d|);
  }

  lemma ValidNameOf(r: Resource)
    requires ValidResource(r)
    ensures ValidName(r.name)
  {
  }

  // ----- the readers as loops -----

  function Prepended<T>(before: seq<T>, rest: Reading<seq<T>>): Reading<seq<T>> {
    if rest.Good? then Good(before + rest.value) else rest
  }

  lemma ReadQueriesStep(records: string, pos: nat, end: nat)
    requires pos < end <= |records|
    ensures ReadQueries(records[pos..], end - pos) ==
      var q := ReadQuery(records[pos..], end - pos);
      if q.Good? then
        Prepended([q.value.value], ReadQueries(records[pos + q.value.length..], end - pos - q.value.length))
      else q.PropagateFailure()
  {
    hide ReadQuery;
    var q := ReadQuery(records[pos..], end - pos);
    assert q.Good? ==> records[pos..][q.value.length..] == records[pos + q.value.length..];
  }

  lemma ReadResourcesStep(records: string, pos: nat, end: nat)
    requires pos < end <= |records|
    ensures ReadResources(records[pos..], end - pos) ==
      var q := ReadResource(records[pos..], end - pos);
      if q.Good? then
        Prepended([q.value.value], ReadResources(records[pos + q.value.length..], end - pos - q.value.length))
      else q.PropagateFailure()
  {
    hide ReadResource;
    var q := ReadResource(records[pos..], end - pos);
    assert q.Good? ==> records[pos..][q.value.length..] == records[pos + q.value.length..];
  }

  /** Sections without bytes hold nothing. */
  lemma NothingRead(s: string)
    ensures ReadQueries(s, 0) == Good([]) && ReadResources(s, 0) == Good([])
  {
  }

  /** The loop of `queries`. */
  method ReadAllQueries(records: string, end: nat) returns (r: Reading<seq<Query>>)
    requires end <= |records|
    ensures r == ReadQueries(records, end)
  {
    hide ReadQuery, ReadQueries;
    var output: seq<Query> := [];
    var pos := 0;
    ghost var whole := ReadQueries(records, end);
    assert records[0..] == records && (whole.Good? ==> [] + whole.value == whole.value);
    while pos < end
      invariant pos <= end && whole == Prepended(output, ReadQueries(records[pos..], end - pos))
    {
      ReadQueriesStep(records, pos, end);
      var q := ReadQueryAt(records, pos, end);
      if !q.Good? {
        return q.PropagateFailure();
      }
      ghost var rest := ReadQueries(records[pos + q.value.length..], end - pos - q.value.length);
      assert rest.Good? ==> output + ([q.value.value] + rest.value) == output + [q.value.value] + rest.value;
      output := output + [q.value.value];
      pos := pos + q.value.length;
    }
    NothingRead(records[pos..]);
    assert output + [] == output;
    return Good(output);
  }

  method ReadQueryAt(records: string, pos: nat, end: nat) returns (r: Reading<Item<Query>>)
    requires pos <= end <= |records|
    ensures r == ReadQuery(records[pos..], end - pos)
  {
    hide ComposedName;
    var name := ComposeName(records, pos);
    if !name.Good? {
      return name.PropagateFailure();
    }
    var at := pos + name.value.length;
    if end < at + 4 {
      return Malformed;
    }
    return Good(Item(Query(name.value.text, Read16(records, at), Read16(records, at + 2)), at + 4 - pos));
  }

  /** `convert_records` between two positions. */
  method ConvertRecords(records: string, start: nat, end: nat) returns (r: Reading<seq<Resource>>)
    requires start <= end <= |records|
    ensures r == ReadResources(records[start..], end - start)
  {
    hide ReadResource, ReadResources;
    var output: seq<Resource> := [];
    var pos := start;
    ghost var whole := ReadResources(records[start..], end - start);
    assert whole.Good? ==> [] + whole.value == whole.value;
    while pos < end
      invariant start <= pos <= end && whole == Prepended(output, ReadResources(records[pos..], end - pos))
    {
      ReadResourcesStep(records, pos, end);
      var q := ReadResourceAt(records, pos, end);
      if !q.Good? {
        return q.PropagateFailure();
      }
      ghost var rest := ReadResources(records[pos + q.value.length..], end - pos - q.value.length);
      assert rest.Good? ==> output + ([q.value.value] + rest.value) == output + [q.value.value] + rest.value;
      output := output + [q.value.value];
      pos := pos + q.value.length;
    }
    NothingRead(records[pos..]);
    assert output + [] == output;
    return Good(output);
  }

  method ReadResourceAt(records: string, pos: nat, end: nat) returns (r: Reading<Item<Resource>>)
    requires pos <= end <= |records|
    ensures r == ReadResource(records[pos..], end - pos)
  {
    hide ComposedName, ReadData, Read32, Read16;
    ghost var s := records[pos..];
    var name := ComposeName(records, pos);
    if !name.Good? {
      return name.PropagateFailure();
    }
    var at := pos + name.value.length;
    if end < at + 10 {
      return Malformed;
    }
    ReadsAgree(records, pos, name.value.length);
    var rtype, rclass := Read16(records, at), Read16(records, at + 2);
    var ttl, size := Read32(records, at + 4), Read16(records, at + 8);
    at := at + 10;
    var preference := 0;
    if rtype == MX {
      if end < at + 2 {
        return Malformed;
      }
      ReadAgrees(records, pos, name.value.length + 10);
      preference := Read16(records, at);
      at := at + 2;
      size := (size + (UINT16_RANGE - 2)) % UINT16_RANGE;
    }
    var data := ReadDataAt(records, pos, end, at, size, rtype);
    if !data.Good? {
      return data.PropagateFailure();
    }
    var resource := Resource(name.value.text, data.value.value, rtype, rclass, ttl, preference);
    return Good(Item(resource, at + data.value.length - pos));
  }

  lemma ReadAgrees(records: string, pos: nat, at: nat)
    requires pos + at + 2 <= |records|
    ensures Read16(records[pos..], at) == Read16(records, pos + at)
  {
  }

  lemma ReadsAgree(records: string, pos: nat, at: nat)
    requires pos + at + 10 <= |records|
    ensures Read16(records[pos..], at) == Read16(records, pos + at)
    ensures Read16(records[pos..], at + 2) == Read16(records, pos + at + 2)
    ensures Read32(records[pos..], at + 4) == Read32(records, pos + at + 4)
    ensures Read16(records[pos..], at + 8) == Read16(records, pos + at + 8)
  {
  }

  /** The data of an SOA record. */
  method ReadAuthorityAt(records: string, pos: nat, end: nat, at: nat) returns (r: Reading<Item<string>>)
    requires pos <= at <= end <= |records|
    ensures r == ReadAuthority(records[pos..], end - pos, at - pos)
  {
    hide ComposedName, EncodedName;
    ghost var s := records[pos..];
    assert s[at - pos..] == records[at..];
    var mname := ComposeName(records, at);
    if !mname.Good? {
      return mname.PropagateFailure();
    }
    var k := at + mname.value.length;
    if k > end {
      return Malformed;
    }
    assert s[k - pos..] == records[k..];
    var rname := ComposeName(records, k);
    if !rname.Good? {
      return rname.PropagateFailure();
    }
    var j := k + rname.value.length;
    if j + SOA_NUMBERS > end {
      return Malformed;
    }
    assert s[j - pos..j - pos + SOA_NUMBERS] == records[j..j + SOA_NUMBERS];
    var data := EncodeDomainName(mname.value.text);
    var second := EncodeDomainName(rname.value.text);
    data := data + second + records[j..j + SOA_NUMBERS];
    return Good(Item(data, j + SOA_NUMBERS - at));
  }

  /** The switch over the record types. */
  method ReadDataAt(records: string, pos: nat, end: nat, at: nat, size: nat, rtype: nat)
    returns (r: Reading<Item<string>>)
    requires pos <= at <= end <= |records|
    ensures r == ReadData(records[pos..], end - pos, at - pos, size, rtype)
  {
    hide ComposedName, ReadAuthority;
    ghost var s := records[pos..];
    if size > end - at {
      return Malformed;
    }
    if rtype == AAAA {
      if end - at < 16 {
        return Malformed;
      }
      assert s[at - pos..at - pos + 16] == records[at..at + 16];
      return Good(Item(records[at..at + 16], 16));
    } else if rtype == A {
      if end - at < 4 {
        return Malformed;
      }
      assert s[at - pos..at - pos + 4] == records[at..at + 4];
      return Good(Item(records[at..at + 4], 4));
    } else if ContainsName(rtype) || rtype == DNAM {
      assert s[at - pos..] == records[at..];
      var name := ComposeName(records, at);
      if !name.Good? {
        return name.PropagateFailure();
      }
      return Good(Item(name.value.text, size));
    } else if rtype == SOA {
      r := ReadAuthorityAt(records, pos, end, at);
      return;
    }
    assert s[at - pos..at - pos + size] == records[at..at + size];
    return Good(Item(records[at..at + size], size));
  }
}
