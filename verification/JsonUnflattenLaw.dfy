/** What one assignment of `unflatten` does to the document built so far. */
module JsonUnflattenLaw {
  import opened Decimal
  import opened JsonFlatten
  import opened JsonPatch
  import opened JsonPatchLaw
  import opened JsonPointer
  import opened JsonValue
  import opened Outcomes

  /** `r` is `j` with `v` at the end of the tokens.  What is missing is created on the way: a null becomes an array
      for the token "0" and an object for any other one. */
  ghost predicate Writes(j: Json, tokens: seq<string>, v: Json, r: Json)
    decreases |tokens|, 0
  {
    if tokens == [] then r == v
    else
      var t, rest := tokens[0], tokens[1..];
      match j
      case Null =>
        if t == "0" then r.Arr? && |r.a| == 1 && Writes(Null, rest, v, r.a[0])
        else r.Obj? && WritesMember(map[], t, rest, v, r.o)
      case Obj(o) => r.Obj? && WritesMember(o, t, rest, v, r.o)
      case Arr(a) => r.Arr? && WritesElement(a, t, rest, v, r.a)
      case _ => false
  }

  ghost predicate WritesMember(o: map<string, Json>, t: string, rest: seq<string>, v: Json, r: map<string, Json>)
    decreases |rest|, 1
  {
    t in r && MemberSet(o, t, r[t], r) && Writes(if t in o then o[t] else Null, rest, v, r[t])
  }

  ghost predicate WritesElement(a: seq<Json>, t: string, rest: seq<string>, v: Json, r: seq<Json>)
    decreases |rest|, 1
  {
    exists i: nat ::
      && Stoi(t) == Ok(i) && i < |r| && ElementSet(a, i, r[i], r)
      && Writes(if i < |a| then a[i] else Null, rest, v, r[i])
  }

  /** An assignment does exactly this. */
  lemma {:induction false} AssignmentExactly(j: Json, tokens: seq<string>, v: Json, r: Json)
    ensures CreateAt(j, tokens, v) == Ok(r) <==> Writes(j, tokens, v, r)
    decreases |tokens|, 0
  {
    hide ElementSet, MemberSet, Stoi, WritesMember, WritesElement;
    if tokens != [] {
      var t, rest := tokens[0], tokens[1..];
      match j
      case Null =>
        if t == "0" {
          NullElementExactly(rest, v, r);
        } else if r.Obj? {
          MemberExactly(map[], t, rest, v, r.o);
        }
      case Obj(o) =>
        if r.Obj? { MemberExactly(o, t, rest, v, r.o); }
      case Arr(a) =>
        assert tokens == [t] + rest;
        if r.Arr? { ElementExactly(a, t, rest, v, r.a); }
      case _ =>
    }
  }

  lemma {:induction false} NullElementExactly(rest: seq<string>, v: Json, r: Json)
    ensures var child := CreateAt(Null, rest, v);
      child.Ok? && r == Arr([child.value]) <==> r.Arr? && |r.a| == 1 && Writes(Null, rest, v, r.a[0])
    decreases |rest|, 1
  {
    hide CreateAt, Writes;
    var child := CreateAt(Null, rest, v);
    if r.Arr? && |r.a| == 1 {
      AssignmentExactly(Null, rest, v, r.a[0]);
      assert r.a == [r.a[0]];
    }
  }

  lemma {:induction false} MemberExactly(o: map<string, Json>, t: string, rest: seq<string>, v: Json,
                                         r: map<string, Json>)
    ensures var child := CreateAt(MemberOrNull(o, t), rest, v);
      child.Ok? && r == o[t := child.value] <==> WritesMember(o, t, rest, v, r)
    decreases |rest|, 1
  {
    hide CreateAt, Writes, MemberSet;
    var child := CreateAt(MemberOrNull(o, t), rest, v);
    if t in r {
      AssignmentExactly(MemberOrNull(o, t), rest, v, r[t]);
      SetIsUpdate(o, t, r[t], r);
    }
  }

  lemma {:induction false} ElementExactly(a: seq<Json>, t: string, rest: seq<string>, v: Json, r: seq<Json>)
    ensures CreateAt(Arr(a), [t] + rest, v) == Ok(Arr(r)) <==> WritesElement(a, t, rest, v, r)
    decreases |rest|, 1
  {
    var tokens := [t] + rest;
    assert tokens[1..] == rest;
    hide Writes, ElementSet, Stoi;
    if Stoi(t).Ok? && Stoi(t).value >= 0 {
      var i: nat := Stoi(t).value;
      var child := CreateAt(Grown(a, i)[i], rest, v);
      assert CreateAt(Arr(a), tokens, v) == if child.Ok? then Ok(Arr(Grown(a, i)[i := child.value])) else child;
      assert Grown(a, i)[i] == if i < |a| then a[i] else Null;
      if i < |r| {
        AssignmentExactly(Grown(a, i)[i], rest, v, r[i]);
        GrownIsSet(a, i, r[i], r);
      }
    }
  }

  /** What is refused: values that are no objects, entries that are no primitive values, and assignments below a
      primitive value, all with `std::domain_error`. */
  lemma UnflattenRefuses(value: Json, j: Json, token: string, rest: seq<string>, v: Json)
    ensures !value.Obj? ==> Unflattened(value) == Err(DomainError)
    ensures j.Primitive?() && !j.Null? ==> CreateAt(j, [token] + rest, v) == Err(DomainError)
    ensures j.Arr? && Stoi(token).Err? ==> CreateAt(j, [token] + rest, v) == Err(Stoi(token).error)
    ensures j.Arr? && Stoi(token).Ok? && Stoi(token).value < 0 ==> CreateAt(j, [token] + rest, v) == Err(LengthError)
    ensures value.Obj? && value.o != map[] && (forall k | k in value.o :: value.o[k].Container?()) ==>
      Unflattened(value) == Err(DomainError)
  {
    hide Stoi;
    if value.Obj? && value.o != map[] {
      var ks := SortedKeys(value.o.Keys);
      assert ks != [] by { var k :| k in value.o; assert k in ks; }
      assert ks[0] in ks;
    }
  }
}
