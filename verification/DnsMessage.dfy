/** A DNS message: one buffer of records and three section indices, built section by section. */
module DnsMessage {
  import opened Numbers
  import opened DnsWire

  /** Where the answers, the authority records and the additional records start. */
  datatype Indices = Indices(answers: nat, authority: nat, additional: nat)

  /** The indices the parsing constructor computes from the record counts. */
  function ParsedIndices(questions: nat, answers: nat, authority: nat, records: string): Reading<Indices> {
    if records == "" then Good(Indices(0, 0, 0))
    else
      var i :- SkippedQueries(records, questions);
      var j :- SkippedRecords(records[i..], answers);
      var k :- SkippedRecords(records[i + j..], authority);
      Good(Indices(i, i + j, i + j + k))
  }

  /** Without records nothing is skipped, whatever the counts say. */
  lemma NothingToSkip(questions: nat, answers: nat, authority: nat)
    ensures ParsedIndices(questions, answers, authority, "") == Good(Indices(0, 0, 0))
  {
  }

  function Shifted(n: nat, r: Reading<nat>): Reading<nat> {
    if r.Good? then Good(n + r.value) else r
  }

  lemma SkippedStep(records: string, pos: nat)
    requires pos <= |records|
    ensures SkippedName(records[pos..]) ==
      if pos == |records| then Good(0)
      else if records[pos] == '\0' then Good(1)
      else if records[pos] as nat >= 0x40 then if |records| < pos + 2 then Malformed else Good(2)
      else if |records| < pos + 1 + records[pos] as nat then Malformed
      else Shifted(1 + records[pos] as nat, SkippedName(records[pos + 1 + records[pos] as nat..]))
  {
    if pos < |records| && pos + 1 + records[pos] as nat <= |records| {
      assert records[pos..][1 + records[pos] as nat..] == records[pos + 1 + records[pos] as nat..];
    }
  }

  /** `skip_to_dname_end`: the position behind a name. */
  method SkipToNameEnd(records: string, start: nat) returns (r: Reading<nat>)
    requires start <= |records|
    ensures r == Shifted(start, SkippedName(records[start..]))
    ensures r.Good? ==> r.value <= |records|
  {
    hide SkippedName;
    var pos := start;
    var more := true;
    ghost var whole := Shifted(start, SkippedName(records[start..]));
    while more && pos < |records|
      invariant start <= pos <= |records|
      invariant whole == if more then Shifted(pos, SkippedName(records[pos..])) else Good(pos)
      decreases more, |records| - pos
    {
      SkippedStep(records, pos);
      var value := records[pos] as nat;
      pos := pos + 1;
      if value == 0 {
        more := false;
      } else if value >= 0x40 {
        if pos + 1 > |records| {
          return Malformed;
        }
        pos := pos + 1;
        more := false;
      } else {
        if pos + value > |records| {
          return Malformed;
        }
        pos := pos + value;
      }
    }
    SkippedStep(records, pos);
    return Good(pos);
  }

  lemma ShiftedStep(records: string, pos: nat, step: nat, rest: Reading<nat>)
    requires pos + step <= |records|
    ensures records[pos..][step..] == records[pos + step..]
    ensures Shifted(pos, Shifted(step, rest)) == Shifted(pos + step, rest)
  {
  }

  lemma QueriesStep(s: string, count: nat)
    requires count > 0
    ensures SkippedQueries(s, count) ==
      var n := SkippedName(s);
      if !n.Good? then n else if n.value + 4 > |s| then Malformed
      else Shifted(n.value + 4, SkippedQueries(s[n.value + 4..], count - 1))
  {
    hide SkippedName;
  }

  lemma RecordsStep(s: string, count: nat)
    requires count > 0
    ensures SkippedRecords(s, count) ==
      var n := SkippedName(s);
      if !n.Good? then n else if n.value + 10 > |s| || n.value + 10 + Read16(s, n.value + 8) > |s| then Malformed
      else
        var end := n.value + 10 + Read16(s, n.value + 8);
        Shifted(end, SkippedRecords(s[end..], count - 1))
  {
    hide SkippedName, Read16;
  }

  /** The loop over the questions in the parsing constructor. */
  method SkipQueries(records: string, count: nat) returns (r: Reading<nat>)
    ensures r == SkippedQueries(records, count)
  {
    hide SkippedName, SkippedQueries;
    var pos: nat := 0;
    assert records[0..] == records;
    for i := 0 to count
      invariant pos <= |records|
      invariant SkippedQueries(records, count) == Shifted(pos, SkippedQueries(records[pos..], count - i))
    {
      QueriesStep(records[pos..], count - i);
      var end := SkipToNameEnd(records, pos);
      if !end.Good? {
        return end;
      }
      if end.value + 4 > |records| {
        return Malformed;
      }
      ShiftedStep(records, pos, end.value + 4 - pos, SkippedQueries(records[end.value + 4..], count - i - 1));
      pos := end.value + 4;
    }
    NothingSkipped(records[pos..]);
    return Good(pos);
  }

  lemma NothingSkipped(s: string)
    ensures SkippedQueries(s, 0) == Good(0) && SkippedRecords(s, 0) == Good(0)
  {
  }

  /** `skip_to_section_end`. */
  method SkipToSectionEnd(records: string, start: nat, count: nat) returns (r: Reading<nat>)
    requires start <= |records|
    ensures r == Shifted(start, SkippedRecords(records[start..], count))
    ensures r.Good? ==> r.value <= |records|
  {
    hide SkippedName, SkippedRecords, Read16;
    var pos := start;
    for i := 0 to count
      invariant start <= pos <= |records|
      invariant Shifted(start, SkippedRecords(records[start..], count))
        == Shifted(pos, SkippedRecords(records[pos..], count - i))
    {
      RecordsStep(records[pos..], count - i);
      var end := SkipToNameEnd(records, pos);
      if !end.Good? {
        return end;
      }
      if end.value + 10 > |records| {
        return Malformed;
      }
      ReadAgrees(records, pos, end.value - pos + 8);
      var size := Read16(records, end.value + 8);
      if end.value + 10 + size > |records| {
        return Malformed;
      }
      ShiftedStep(records, pos, end.value + 10 + size - pos,
                  SkippedRecords(records[end.value + 10 + size..], count - i - 1));
      pos := end.value + 10 + size;
    }
    NothingSkipped(records[pos..]);
    return Good(pos);
  }

  /** The parsing constructor, as far as the indices go. */
  method ParseIndices(questions: nat, answers: nat, authority: nat, records: string) returns (r: Reading<Indices>)
    ensures r == ParsedIndices(questions, answers, authority, records)
  {
    hide SkippedQueries, SkippedRecords;
    if records == "" {
      return Good(Indices(0, 0, 0));
    }
    var i := SkipQueries(records, questions);
    if !i.Good? {
      return i.PropagateFailure();
    }
    var j := SkipToSectionEnd(records, i.value, answers);
    if !j.Good? {
      return j.PropagateFailure();
    }
    var k := SkipToSectionEnd(records, j.value, authority);
    if !k.Good? {
      return k.PropagateFailure();
    }
    return Good(Indices(i.value, j.value, k.value));
  }

  // ----- messages -----

  /** The buffer of a message with these sections. */
  function Layout(qs: seq<Query>, answers: seq<Resource>, authority: seq<Resource>, additional: seq<Resource>): string {
    EncodedQueries(qs) + EncodedResources(answers) + EncodedResources(authority) + EncodedResources(additional)
  }

  predicate AllValid(qs: seq<Query>, answers: seq<Resource>, authority: seq<Resource>,
                     additional: seq<Resource>)
  {
    && (forall i | 0 <= i < |qs| :: ValidQuery(qs[i]))
    && (forall i | 0 <= i < |answers| :: ValidResource(answers[i]))
    && (forall i | 0 <= i < |authority| :: ValidResource(authority[i]))
    && (forall i | 0 <= i < |additional| :: ValidResource(additional[i]))
  }

  lemma IndicesOf(questions: nat, answers: nat, authority: nat, q: string, a: string, u: string, d: string)
    requires SkippedQueries(q + (a + (u + d)), questions) == Good(|q|)
    requires SkippedRecords(a + (u + d), answers) == Good(|a|) && SkippedRecords(u + d, authority) == Good(|u|)
    ensures ParsedIndices(questions, answers, authority, q + a + u + d)
      == Good(Indices(|q|, |q| + |a|, |q| + |a| + |u|))
  {
    hide SkippedQueries, SkippedRecords;
    var s := q + a + u + d;
    assert s == q + (a + (u + d)) && s[|q|..] == a + (u + d) && s[|q| + |a|..] == u + d;
  }

  /** Parsing the bytes of a message finds its sections again. */
  lemma LayoutIsParsed(qs: seq<Query>, answers: seq<Resource>, authority: seq<Resource>, additional: seq<Resource>)
    requires AllValid(qs, answers, authority, additional)
    ensures var i := |EncodedQueries(qs)|; var j := i + |EncodedResources(answers)|;
      ParsedIndices(|qs|, |answers|, |authority|, Layout(qs, answers, authority, additional))
        == Good(Indices(i, j, j + |EncodedResources(authority)|))
  {
    hide SkippedQueries, SkippedRecords, EncodedQueries, EncodedResources, ValidQuery, ValidResource, ParsedIndices;
    var q, a := EncodedQueries(qs), EncodedResources(answers);
    var u, d := EncodedResources(authority), EncodedResources(additional);
    QueriesAreSkipped(qs, a + (u + d));
    RecordsAreSkipped(answers, u + d);
    RecordsAreSkipped(authority, d);
    IndicesOf(|qs|, |answers|, |authority|, q, a, u, d);
  }

  class Dns {
    var records: string
    var answersIdx: nat
    var authorityIdx: nat
    var additionalIdx: nat
    var questionCount: nat
    var answerCount: nat
    var authorityCount: nat
    var additionalCount: nat

    /** What has been added to each section. */
    ghost var questionList: seq<Query>
    ghost var answerList: seq<Resource>
    ghost var authorityList: seq<Resource>
    ghost var additionalList: seq<Resource>

    constructor ()
      ensures Valid() && questionList == [] && answerList == authorityList == additionalList == []
    {
      records := "";
      answersIdx, authorityIdx, additionalIdx := 0, 0, 0;
      questionCount, answerCount, authorityCount, additionalCount := 0, 0, 0, 0;
      questionList, answerList, authorityList, additionalList := [], [], [], [];
    }

    /** The buffer, the indices and the counts agree with the four lists. */
    ghost predicate Valid()
      reads this
    {
      && AllValid(questionList, answerList, authorityList, additionalList)
      && records == Layout(questionList, answerList, authorityList, additionalList)
      && answersIdx == |EncodedQueries(questionList)|
      && authorityIdx == answersIdx + |EncodedResources(answerList)|
      && additionalIdx == authorityIdx + |EncodedResources(authorityList)|
      && questionCount == |questionList| % UINT16_RANGE && answerCount == |answerList| % UINT16_RANGE
      && authorityCount == |authorityList| % UINT16_RANGE && additionalCount == |additionalList| % UINT16_RANGE
    }

    /** `add_query`; in section order there are no records yet whose names would have to be updated. */
    method AddQuery(q: Query)
      requires Valid() && ValidQuery(q) && answerList == authorityList == additionalList == []
      modifies this
      ensures Valid() && questionList == old(questionList) + [q]
      ensures answerList == authorityList == additionalList == []
    {
      hide EncodedQueries, EncodedResources, ValidQuery, EncodedName;
      var name := EncodeDomainName(q.name);
      var bytes := name + (BigEndian(q.qtype, 2) + BigEndian(q.qclass, 2));
      NoResources();
      EncodedQueriesAppend(questionList, q);
      assert bytes == EncodedQuery(q);
      assert answersIdx == |records|;
      var threshold := answersIdx;
      answersIdx := answersIdx + |bytes|;
      authorityIdx := authorityIdx + |bytes|;
      additionalIdx := additionalIdx + |bytes|;
      records := records[..threshold] + bytes + records[threshold..];
      questionCount := (questionCount + 1) % UINT16_RANGE;
      questionList := questionList + [q];
    }

    /** `add_record` at the end of the sections so far, up to the count; the size field holds 16 bits. */
    method AddRecord(r: Resource, threshold: nat) returns (length: nat)
      requires ValidResource(r) && threshold == |records|
      modifies this`records
      ensures records == old(records) + EncodedResource(r) && length == |EncodedResource(r)|
    {
      hide EncodedName, ValidName, BigEndian;
      var buffer := EncodeDomainName(r.name);
      var data := r.data;
      if ContainsName(r.rtype) {
        data := EncodeDomainName(r.data);
      }
      var isMx := r.rtype == MX;
      var size := |data| + if isMx then 2 else 0;
      var fixed := BigEndian(r.rtype, 2) + BigEndian(r.rclass, 2) + BigEndian(r.ttl, 4) + BigEndian(size, 2);
      var bytes := buffer + (fixed + ((if isMx then BigEndian(r.preference, 2) else "") + data));
      records := records[..threshold] + bytes + records[threshold..];
      length := |bytes|;
    }

    method AddAnswer(r: Resource)
      requires Valid() && ValidResource(r) && authorityList == additionalList == []
      modifies this
      ensures Valid() && answerList == old(answerList) + [r]
      ensures questionList == old(questionList) && authorityList == additionalList == []
    {
      hide EncodedQueries, EncodedResources, EncodedResource, ValidQuery, ValidResource;
      NoResources();
      EncodedResourcesAppend(answerList, r);
      var length := AddRecord(r, authorityIdx);
      authorityIdx := authorityIdx + length;
      additionalIdx := additionalIdx + length;
      answerCount := (answerCount + 1) % UINT16_RANGE;
      answerList := answerList + [r];
    }

    method AddAuthority(r: Resource)
      requires Valid() && ValidResource(r) && additionalList == []
      modifies this
      ensures Valid() && authorityList == old(authorityList) + [r]
      ensures questionList == old(questionList) && answerList == old(answerList) && additionalList == []
    {
      hide EncodedQueries, EncodedResources, EncodedResource, ValidQuery, ValidResource;
      NoResources();
      EncodedResourcesAppend(authorityList, r);
      var length := AddRecord(r, additionalIdx);
      additionalIdx := additionalIdx + length;
      authorityCount := (authorityCount + 1) % UINT16_RANGE;
      authorityList := authorityList + [r];
    }

    method AddAdditional(r: Resource)
      requires Valid() && ValidResource(r)
      modifies this
      ensures Valid() && additionalList == old(additionalList) + [r]
      ensures questionList == old(questionList) && answerList == old(answerList) && authorityList == old(authorityList)
    {
      hide EncodedQueries, EncodedResources, EncodedResource, ValidQuery, ValidResource;
      EncodedResourcesAppend(additionalList, r);
      var _ := AddRecord(r, |records|);
      additionalCount := (additionalCount + 1) % UINT16_RANGE;
      additionalList := additionalList + [r];
    }

    /** Each getter returns exactly what was added. */
    method Queries() returns (r: Reading<seq<Query>>)
      requires Valid()
      ensures r == Good(questionList)
    {
      hide EncodedQueries, EncodedResources, ValidQuery, ValidResource, ReadQueries;
      var a, u, d := EncodedResources(answerList), EncodedResources(authorityList), EncodedResources(additionalList);
      SectionsOf(EncodedQueries(questionList), a, u, d);
      QueriesRoundTrip(questionList, a + (u + d));
      if records != "" {
        r := ReadAllQueries(records, answersIdx);
      } else {
        NothingRead("");
        r := Good([]);
      }
    }

    method Answers() returns (r: Reading<seq<Resource>>)
      requires Valid()
      ensures r == Good(answerList)
    {
      hide EncodedQueries, EncodedResources, ValidQuery, ValidResource, ReadResources;
      var a, u, d := EncodedResources(answerList), EncodedResources(authorityList), EncodedResources(additionalList);
      SectionsOf(EncodedQueries(questionList), a, u, d);
      ResourcesRoundTrip(answerList, u + d);
      if answersIdx < |records| {
        r := ConvertRecords(records, answersIdx, authorityIdx);
      } else {
        NothingRead("");
        r := Good([]);
      }
    }

    method Authority() returns (r: Reading<seq<Resource>>)
      requires Valid()
      ensures r == Good(authorityList)
    {
      hide EncodedQueries, EncodedResources, ValidQuery, ValidResource, ReadResources;
      var a, u, d := EncodedResources(answerList), EncodedResources(authorityList), EncodedResources(additionalList);
      SectionsOf(EncodedQueries(questionList), a, u, d);
      ResourcesRoundTrip(authorityList, d);
      if authorityIdx < |records| {
        r := ConvertRecords(records, authorityIdx, additionalIdx);
      } else {
        NothingRead("");
        r := Good([]);
      }
    }

    method Additional() returns (r: Reading<seq<Resource>>)
      requires Valid()
      ensures r == Good(additionalList)
    {
      hide EncodedQueries, EncodedResources, ValidQuery, ValidResource, ReadResources;
      var a, u, d := EncodedResources(answerList), EncodedResources(authorityList), EncodedResources(additionalList);
      SectionsOf(EncodedQueries(questionList), a, u, d);
      ResourcesRoundTrip(additionalList, "");
      assert d + "" == d;
      if additionalIdx < |records| {
        r := ConvertRecords(records, additionalIdx, |records|);
      } else {
        NothingRead("");
        r := Good([]);
      }
    }

    /** Parsing the serialised bytes again recovers the three indices, as long as the counts fit their fields. */
    method Reparse() returns (r: Reading<Indices>)
      requires Valid()
      requires |questionList| < UINT16_RANGE && |answerList| < UINT16_RANGE && |authorityList| < UINT16_RANGE
      ensures r == Good(Indices(answersIdx, authorityIdx, additionalIdx))
    {
      hide ParsedIndices, EncodedQueries, EncodedResources, ValidQuery, ValidResource, Layout;
      LayoutIsParsed(questionList, answerList, authorityList, additionalList);
      r := ParseIndices(questionCount, answerCount, authorityCount, records);
    }
  }

  lemma SectionsOf(q: string, a: string, u: string, d: string)
    ensures var s := q + a + u + d;
      && s == q + (a + (u + d)) && s[|q|..] == a + (u + d) && s[|q| + |a|..] == u + d && s[|q| + |a| + |u|..] == d
  {
  }

  lemma NoResources()
    ensures EncodedResources([]) == ""
  {
  }

  /** Whole runs in section order: whatever lists are added, the message holds exactly those. */
  method Build(qs: seq<Query>, answers: seq<Resource>, authority: seq<Resource>, additional: seq<Resource>)
    returns (m: Dns)
    requires AllValid(qs, answers, authority, additional)
    ensures fresh(m) && m.Valid() && m.records == Layout(qs, answers, authority, additional)
    ensures m.questionList == qs && m.answerList == answers
    ensures m.authorityList == authority && m.additionalList == additional
  {
    hide ValidQuery, ValidResource, Layout, Dns.Valid;
    m := new Dns();
    for i := 0 to |qs|
      invariant fresh(m) && m.Valid() && m.questionList == qs[..i]
      invariant m.answerList == m.authorityList == m.additionalList == []
    {
      m.AddQuery(qs[i]);
    }
    for i := 0 to |answers|
      invariant fresh(m) && m.Valid() && m.questionList == qs && m.answerList == answers[..i]
      invariant m.authorityList == m.additionalList == []
    {
      m.AddAnswer(answers[i]);
    }
    for i := 0 to |authority|
      invariant fresh(m) && m.Valid() && m.questionList == qs && m.answerList == answers
      invariant m.authorityList == authority[..i] && m.additionalList == []
    {
      m.AddAuthority(authority[i]);
    }
    for i := 0 to |additional|
      invariant fresh(m) && m.Valid() && m.questionList == qs && m.answerList == answers
      invariant m.authorityList == authority && m.additionalList == additional[..i]
    {
      m.AddAdditional(additional[i]);
    }
    assert additional[..|additional|] == additional;
    BuiltRecords(m);
  }

  lemma BuiltRecords(m: Dns)
    requires m.Valid()
    ensures m.records == Layout(m.questionList, m.answerList, m.authorityList, m.additionalList)
  {
  }
}
