/** What the operations of a patch do, told by what the document looks like before and after. */
module JsonPatchLaw {
  import opened Outcomes
  import opened Decimal
  import opened JsonPointer
  import opened JsonValue
  import opened JsonPatch

  // ----- children -----

  /** `after` is `before` with `v` in front of what was at `i`: nothing is lost, nothing changes its order. */
  predicate InsertedAt(before: seq<Json>, i: nat, v: Json, after: seq<Json>) {
    && i <= |before| && |after| == |before| + 1
    && after[i] == v
    && (forall k | 0 <= k < i :: after[k] == before[k])
    && (forall k | i <= k < |before| :: after[k + 1] == before[k])
  }

  /** `after` is `before` with the member `name` set to `v` and every other member as it was. */
  predicate MemberSet(before: map<string, Json>, name: string, v: Json, after: map<string, Json>) {
    && after.Keys == before.Keys + {name}
    && after[name] == v
    && (forall k | k in before && k != name :: after[k] == before[k])
  }

  /** A value is added to a parent: "-" means behind the last element, a null becomes an object. */
  ghost predicate Grafted(parent: Json, name: string, v: Json, r: Json) {
    match parent
    case Arr(a) =>
      r.Arr? && exists i: nat :: (if name == "-" then i == |a| else Stoi(name) == Ok(i)) && InsertedAt(a, i, v, r.a)
    case Obj(o) => r.Obj? && MemberSet(o, name, v, r.o)
    case Null => r.Obj? && MemberSet(map[], name, v, r.o)
    case _ => false
  }

  /** A child is taken out of its parent; a primitive parent is left alone. */
  ghost predicate Pruned(parent: Json, name: string, r: Json) {
    match parent
    case Arr(a) => r.Arr? && exists i: nat :: i < |a| && Stoi(name) == Ok(i) && InsertedAt(r.a, i, a[i], a)
    case Obj(o) => r.Obj? && name in o && r.o.Keys == o.Keys - {name} && forall k | k in r.o :: r.o[k] == o[k]
    case _ => r == parent
  }

  lemma InsertedIsSliced(a: seq<Json>, i: nat, v: Json, r: seq<Json>)
    ensures InsertedAt(a, i, v, r) <==> i <= |a| && r == a[..i] + [v] + a[i..]
  {
    if InsertedAt(a, i, v, r) {
      var s := a[..i] + [v] + a[i..];
      forall k | 0 <= k < |r| ensures r[k] == s[k] {
        if k > i { assert r[k - 1 + 1] == a[k - 1]; }
      }
    }
  }

  lemma SetIsUpdate(o: map<string, Json>, name: string, v: Json, r: map<string, Json>)
    ensures MemberSet(o, name, v, r) <==> r == o[name := v]
  {
    if MemberSet(o, name, v, r) {
      assert forall k :: k in r <==> k in o[name := v];
    }
  }

  lemma InsertChildExactly(parent: Json, name: string, v: Json, r: Json)
    ensures InsertChild(parent, name, v) == Ok(r) <==> Grafted(parent, name, v, r)
  {
    hide Stoi, InsertedAt, MemberSet;
    match parent
    case Null =>
      if r.Obj? { SetIsUpdate(map[], name, v, r.o); }
    case Obj(o) =>
      if r.Obj? { SetIsUpdate(o, name, v, r.o); }
    case Arr(a) =>
      if r.Arr? {
        forall i: nat ensures InsertedAt(a, i, v, r.a) <==> i <= |a| && r.a == a[..i] + [v] + a[i..] {
          InsertedIsSliced(a, i, v, r.a);
        }
        assert a[..|a|] + [v] + a[|a|..] == a + [v];
      }
    case _ =>
  }

  lemma RemovedIsSliced(a: seq<Json>, i: nat, r: seq<Json>)
    requires i < |a|
    ensures InsertedAt(r, i, a[i], a) <==> r == a[..i] + a[i + 1..]
  {
    if InsertedAt(r, i, a[i], a) {
      var s := a[..i] + a[i + 1..];
      forall k | 0 <= k < |r| ensures r[k] == s[k] {
        if k >= i { assert a[k + 1] == r[k]; }
      }
    }
  }

  lemma EraseChildExactly(parent: Json, name: string, r: Json)
    ensures EraseChild(parent, name) == Ok(r) <==> Pruned(parent, name, r)
  {
    hide Stoi, InsertedAt, MemberSet;
    match parent
    case Obj(o) =>
      if name in o && r.Obj? && r.o.Keys == o.Keys - {name} {
        assert (forall k | k in r.o :: r.o[k] == o[k]) ==> r.o == o - {name};
      }
    case Arr(a) =>
      if r.Arr? {
        forall i: nat | i < |a| ensures InsertedAt(r.a, i, a[i], a) <==> r.a == a[..i] + a[i + 1..] {
          RemovedIsSliced(a, i, r.a);
        }
      }
    case _ =>
  }

  // ----- ways through a document -----

  /** The index a token means in an array of `n` elements when what is missing is created. */
  predicate MeansIndex(token: string, n: nat, i: nat) {
    if token == "-" then i == n else !(|token| > 1 && token[0] == '0') && Stoi(token) == Ok(i)
  }

  /** `r` is the array `a` with `child` at `i`, filled up with nulls, and every other element as it was. */
  predicate ElementSet(a: seq<Json>, i: nat, child: Json, r: seq<Json>) {
    && |r| == (if i < |a| then |a| else i + 1)
    && r[i] == child
    && (forall k | 0 <= k < |a| && k != i :: r[k] == a[k])
    && (forall k | |a| <= k < i :: r[k] == Null)
  }

  /** The tokens lead from `j` to `x`, and `r` is `j` with `y` in that place.  What is missing is taken for a null
      and created on the way; a null becomes an array for a number or "-" and an object otherwise. */
  ghost predicate Leads(j: Json, tokens: seq<string>, x: Json, y: Json, r: Json)
    decreases |tokens|, 0
  {
    if tokens == [] then x == j && r == y
    else
      var t, rest := tokens[0], tokens[1..];
      match j
      case Obj(o) => r.Obj? && LeadsMember(o, t, rest, x, y, r.o)
      case Arr(a) => r.Arr? && LeadsElement(a, t, rest, x, y, r.a)
      case Null =>
        if AllDigits(t) || t == "-" then r.Arr? && LeadsElement([], t, rest, x, y, r.a)
        else r.Obj? && LeadsMember(map[], t, rest, x, y, r.o)
      case _ => false
  }

  ghost predicate LeadsMember(o: map<string, Json>, t: string, rest: seq<string>, x: Json, y: Json,
                              r: map<string, Json>)
    decreases |rest|, 1
  {
    t in r && MemberSet(o, t, r[t], r) && Leads(if t in o then o[t] else Null, rest, x, y, r[t])
  }

  ghost predicate LeadsElement(a: seq<Json>, t: string, rest: seq<string>, x: Json, y: Json, r: seq<Json>)
    decreases |rest|, 1
  {
    exists i: nat ::
      && MeansIndex(t, |a|, i) && i < |r| && ElementSet(a, i, r[i], r)
      && Leads(if i < |a| then a[i] else Null, rest, x, y, r[i])
  }

  lemma GrownIsSet(a: seq<Json>, i: nat, child: Json, r: seq<Json>)
    ensures ElementSet(a, i, child, r) <==> r == Grown(a, i)[i := child]
  {
    var s := Grown(a, i)[i := child];
    if ElementSet(a, i, child, r) {
      forall k | 0 <= k < |r| ensures r[k] == s[k] {
        if |a| <= k < i { assert r[k] == Null; }
      }
    }
  }

  lemma GrowingIndexMeans(a: seq<Json>, t: string, i: nat)
    ensures GrowingIndex(a, t) == Ok(i) <==> MeansIndex(t, |a|, i)
  {
  }

  /** What an edit that creates what is missing has found and left behind. */
  lemma {:induction false} EditLeads(j: Json, tokens: seq<string>, e: Edit) returns (x: Json, y: Json)
    requires EditOrCreate(j, tokens, e).Ok?
    ensures Leads(j, tokens, x, y, EditOrCreate(j, tokens, e).value) && ApplyEdit(e, x) == Ok(y)
    decreases |tokens|
  {
    hide ApplyEdit, ElementSet, GrowingIndex, MeansIndex;
    if tokens == [] {
      x, y := j, EditOrCreate(j, tokens, e).value;
    } else {
      var t, rest := tokens[0], tokens[1..];
      match Promoted(j, t)
      case Obj(o) =>
        var child := if t in o then o[t] else Null;
        x, y := EditLeads(child, rest, e);
        var c := EditOrCreate(child, rest, e).value;
        SetIsUpdate(o, t, c, o[t := c]);
      case Arr(a) =>
        var i := GrowingIndex(a, t).value;
        var child := Grown(a, i)[i];
        x, y := EditLeads(child, rest, e);
        var c := EditOrCreate(child, rest, e).value;
        GrowingIndexMeans(a, t, i);
        GrownIsSet(a, i, c, Grown(a, i)[i := c]);
        assert child == if i < |a| then a[i] else Null;
        assert LeadsElement(a, t, rest, x, y, Grown(a, i)[i := c]);
    }
  }

  lemma {:induction false} LeadsEdits(j: Json, tokens: seq<string>, e: Edit, x: Json, y: Json, r: Json)
    requires Leads(j, tokens, x, y, r) && ApplyEdit(e, x) == Ok(y)
    ensures EditOrCreate(j, tokens, e) == Ok(r)
    decreases |tokens|
  {
    hide ApplyEdit, ElementSet, GrowingIndex, MeansIndex, MemberSet;
    if tokens != [] {
      var t, rest := tokens[0], tokens[1..];
      match Promoted(j, t)
      case Obj(o) =>
        LeadsEdits(if t in o then o[t] else Null, rest, e, x, y, r.o[t]);
        SetIsUpdate(o, t, r.o[t], r.o);
      case Arr(a) =>
        var i: nat :|
          && MeansIndex(t, |a|, i) && i < |r.a| && ElementSet(a, i, r.a[i], r.a)
          && Leads(if i < |a| then a[i] else Null, rest, x, y, r.a[i]);
        LeadsEdits(if i < |a| then a[i] else Null, rest, e, x, y, r.a[i]);
        GrowingIndexMeans(a, t, i);
        GrownIsSet(a, i, r.a[i], r.a);
    }
  }

  lemma CreatesNothing(j: Json, tokens: seq<string>, y: Json)
    requires At(j, tokens).Ok?
    ensures EditOrCreate(j, tokens, Put(y)) == Substituted(j, tokens, y) && Substituted(j, tokens, y).Ok?
  {
    hide At, EditOrCreate, EditAt;
    EditOrCreateBelow(j, tokens, [], Put(y));
    SubstitutedTwice(j, tokens, y, y);
    assert tokens + [] == tokens;
    BothApply(At(j, tokens).value, Put(y));
  }

  /** Where something is found already, the way leads to it, and it is replaced. */
  lemma LeadsWhereFound(j: Json, tokens: seq<string>, x: Json, y: Json, r: Json)
    requires At(j, tokens).Ok?
    ensures Leads(j, tokens, x, y, r) <==> x == At(j, tokens).value && Substituted(j, tokens, y) == Ok(r)
  {
    hide Leads, At, EditOrCreate, Substituted;
    CreatesNothing(j, tokens, y);
    if Leads(j, tokens, x, y, r) {
      LeadsEdits(j, tokens, Put(y), x, y, r);
      LeadsThere(j, tokens, x, y, r);
    }
    var x', y' := EditLeads(j, tokens, Put(y));
    LeadsThere(j, tokens, x', y', Substituted(j, tokens, y).value);
  }

  lemma {:induction false} LeadsThere(j: Json, tokens: seq<string>, x: Json, y: Json, r: Json)
    requires At(j, tokens).Ok? && Leads(j, tokens, x, y, r)
    ensures x == At(j, tokens).value
    decreases |tokens|
  {
    if tokens != [] {
      var t, rest := tokens[0], tokens[1..];
      match j
      case Obj(o) => LeadsThere(o[t], rest, x, y, r.o[t]);
      case Arr(a) =>
        var i: nat :|
          && MeansIndex(t, |a|, i) && i < |r.a| && ElementSet(a, i, r.a[i], r.a)
          && Leads(if i < |a| then a[i] else Null, rest, x, y, r.a[i]);
        LeadsThere(a[i], rest, x, y, r.a[i]);
    }
  }

  // ----- the operations -----

  ghost predicate Adds(d: Json, front: seq<string>, name: string, v: Json, r: Json) {
    exists x, y :: Leads(d, front, x, y, r) && Grafted(x, name, v, y)
  }

  ghost predicate Removes(d: Json, front: seq<string>, name: string, r: Json) {
    At(d, front).Ok? && exists x, y :: Leads(d, front, x, y, r) && Pruned(x, name, y)
  }

  /** Adding at the root replaces the document; elsewhere the first token must lead to something. */
  ghost predicate AddsAt(d: Json, path: seq<string>, v: Json, r: Json) {
    if path == [] then r == v
    else (|path| > 1 ==> At(d, path[..1]).Ok?) && Adds(d, path[..|path| - 1], path[|path| - 1], v, r)
  }

  ghost predicate RemovesAt(d: Json, path: seq<string>, r: Json) {
    path != [] && Removes(d, path[..|path| - 1], path[|path| - 1], r)
  }

  /** What an operation on `d` does: `r` is what it leaves behind. */
  ghost predicate Does(d: Json, op: Op, r: Json) {
    match op
    case Add(path, v) => AddsAt(d, path, v, r)
    case Remove(path) => RemovesAt(d, path, r)
    case Replace(path, v) => At(d, path).Ok? && exists x :: Leads(d, path, x, v, r)
    case Move(from, path) =>
      At(d, from).Ok? && exists m :: RemovesAt(d, from, m) && AddsAt(m, path, At(d, from).value, r)
    case Copy(from, path) => At(d, from).Ok? && exists x :: Leads(d, path, x, At(d, from).value, r)
    case Test(path, v) => At(d, path).Ok? && Eq(At(d, path).value, v) && r == d
  }

  lemma EditOrCreateExactly(d: Json, p: seq<string>, e: Edit, r: Json)
    ensures EditOrCreate(d, p, e) == Ok(r) <==> exists x, y :: Leads(d, p, x, y, r) && ApplyEdit(e, x) == Ok(y)
  {
    hide Leads, EditOrCreate, ApplyEdit;
    if EditOrCreate(d, p, e) == Ok(r) {
      var x, y := EditLeads(d, p, e);
    }
    forall x, y | Leads(d, p, x, y, r) && ApplyEdit(e, x) == Ok(y) ensures EditOrCreate(d, p, e) == Ok(r) {
      LeadsEdits(d, p, e, x, y, r);
    }
  }

  lemma EditAtExactly(d: Json, p: seq<string>, e: Edit, r: Json)
    ensures EditAt(d, p, e) == Ok(r) <==>
      At(d, p).Ok? && exists x, y :: Leads(d, p, x, y, r) && ApplyEdit(e, x) == Ok(y)
  {
    hide Leads, EditOrCreate, ApplyEdit, EditAt, At;
    if EditAt(d, p, e).Ok? {
      EditAtReads(d, p, e);
    }
    if At(d, p).Ok? {
      assert p + [] == p;
      EditAtBelow(d, p, [], e);
      EditOrCreateBelow(d, p, [], e);
      BothApply(At(d, p).value, e);
      EditOrCreateExactly(d, p, e, r);
    }
  }

  lemma BothApply(j: Json, e: Edit)
    ensures EditAt(j, [], e) == ApplyEdit(e, j) == EditOrCreate(j, [], e)
  {
  }

  lemma AddExactly(d: Json, path: seq<string>, v: Json, r: Json)
    ensures AddAt(d, path, v) == Ok(r) <==> AddsAt(d, path, v, r)
  {
    hide Leads, EditOrCreate, At, InsertChild, Grafted;
    if path != [] {
      var front, name := path[..|path| - 1], path[|path| - 1];
      EditOrCreateExactly(d, front, AddChild(name, v), r);
      forall x, y ensures ApplyEdit(AddChild(name, v), x) == Ok(y) <==> Grafted(x, name, v, y) {
        InsertChildExactly(x, name, v, y);
      }
    }
  }

  lemma RemoveExactly(d: Json, path: seq<string>, r: Json)
    ensures RemoveAt(d, path) == Ok(r) <==> RemovesAt(d, path, r)
  {
    hide Leads, EditAt, At, EraseChild, Pruned;
    if path != [] {
      var front, name := path[..|path| - 1], path[|path| - 1];
      EditAtExactly(d, front, RemoveChild(name), r);
      forall x, y ensures ApplyEdit(RemoveChild(name), x) == Ok(y) <==> Pruned(x, name, y) {
        EraseChildExactly(x, name, y);
      }
    }
  }

  lemma MoveExactly(d: Json, from: seq<string>, path: seq<string>, r: Json)
    ensures ApplyOp(d, Move(from, path)) == Ok(r) <==> Does(d, Move(from, path), r)
  {
    hide AddsAt, RemovesAt, At, AddAt, RemoveAt;
    if At(d, from).Ok? {
      forall m ensures RemoveAt(d, from) == Ok(m) <==> RemovesAt(d, from, m) { RemoveExactly(d, from, m); }
      forall m ensures AddAt(m, path, At(d, from).value) == Ok(r) <==> AddsAt(m, path, At(d, from).value, r) {
        AddExactly(m, path, At(d, from).value, r);
      }
    }
  }

  /** Every operation does exactly what is told of it: it succeeds with `r` if and only if `r` is what it leaves
      behind.  In particular an addition to an array inserts, and the later elements move up by one. */
  lemma OperationsExactly(d: Json, op: Op, r: Json)
    ensures ApplyOp(d, op) == Ok(r) <==> Does(d, op, r)
  {
    hide Leads, EditOrCreate, EditAt, At, AddAt, RemoveAt, AddsAt, RemovesAt, Eq;
    match op {
      case Add(path, v) => AddExactly(d, path, v, r);
      case Remove(path) => RemoveExactly(d, path, r);
      case Replace(path, v) => EditAtExactly(d, path, Put(v), r);
      case Move(from, path) => MoveExactly(d, from, path, r);
      case Copy(from, path) =>
        if At(d, from).Ok? { EditOrCreateExactly(d, path, Put(At(d, from).value), r); }
      case Test(path, v) =>
    }
  }

  /** An addition below a parent that exists: the parent gets the new child, whatever lies elsewhere stays. */
  lemma AddInserts(d: Json, front: seq<string>, name: string, v: Json)
    requires At(d, front).Ok? && ApplyOp(d, Add(front + [name], v)).Ok?
    ensures var r := ApplyOp(d, Add(front + [name], v)).value;
      && At(r, front).Ok? && Grafted(At(d, front).value, name, v, At(r, front).value)
      && Substituted(d, front, At(r, front).value) == Ok(r)
  {
    hide Leads, At, Grafted, Substituted, ApplyOp;
    var path := front + [name];
    var r := ApplyOp(d, Add(path, v)).value;
    assert path[..|path| - 1] == front && path[|path| - 1] == name;
    OperationsExactly(d, Add(path, v), r);
    var x, y :| Leads(d, front, x, y, r) && Grafted(x, name, v, y);
    LeadsWhereFound(d, front, x, y, r);
    SubstitutedTwice(d, front, y, y);
  }

  lemma RemoveErases(d: Json, front: seq<string>, name: string)
    requires At(d, front).Ok? && ApplyOp(d, Remove(front + [name])).Ok?
    ensures var r := ApplyOp(d, Remove(front + [name])).value;
      && At(r, front).Ok? && Pruned(At(d, front).value, name, At(r, front).value)
      && Substituted(d, front, At(r, front).value) == Ok(r)
  {
    hide Leads, At, Pruned, Substituted, ApplyOp;
    var path := front + [name];
    var r := ApplyOp(d, Remove(path)).value;
    assert path[..|path| - 1] == front && path[|path| - 1] == name;
    OperationsExactly(d, Remove(path), r);
    var x, y :| Leads(d, front, x, y, r) && Pruned(x, name, y);
    LeadsWhereFound(d, front, x, y, r);
    SubstitutedTwice(d, front, y, y);
  }

  // ----- failures -----

  /** One token further: what is found, or the exception that is thrown. */
  function Found(parent: Json, t: string): Result<Json> {
    if parent.Obj? && t in parent.o then Ok(parent.o[t])
    else if !parent.Arr? || t == "-" then Err(OutOfRange)
    else if |t| > 1 && t[0] == '0' then Err(DomainError)
    else if Stoi(t).Err? then Err(Stoi(t).error)
    else if 0 <= Stoi(t).value < |parent.a| then Ok(parent.a[Stoi(t).value])
    else Err(OutOfRange)
  }

  lemma FoundExactly(d: Json, front: seq<string>, t: string)
    requires At(d, front).Ok?
    ensures At(d, front + [t]) == Found(At(d, front).value, t)
  {
    hide Stoi;
    AtBelow(d, front, [t]);
    assert [t][1..] == [];
  }

  /** Nothing is found below what is not found. */
  lemma {:induction false} NothingFoundBelow(d: Json, front: seq<string>, rest: seq<string>)
    requires At(d, front).Err?
    ensures At(d, front + rest) == At(d, front)
    decreases |front|
  {
    if front != [] {
      assert (front + rest)[1..] == front[1..] + rest;
      match d
      case Obj(o) =>
        if front[0] in o { NothingFoundBelow(o[front[0]], front[1..], rest); }
      case Arr(a) =>
        var i := CheckedIndex(a, front[0]);
        if i.Ok? { NothingFoundBelow(a[i.value], front[1..], rest); }
      case _ =>
    }
  }

  /** Operations whose target or source is not there throw what looking for it throws; a test turns
      `std::out_of_range` into its own exception. */
  lemma MissingTarget(d: Json, front: seq<string>, name: string, v: Json)
    requires At(d, front).Err?
    ensures ApplyOp(d, Replace(front, v)) == Err(At(d, front).error)
    ensures ApplyOp(d, Remove(front + [name])) == Err(At(d, front).error)
    ensures ApplyOp(d, Move(front, [name])) == ApplyOp(d, Copy(front, [name])) == Err(At(d, front).error)
    ensures ApplyOp(d, Test(front, v)) ==
      Err(if At(d, front).error == OutOfRange then DomainError else At(d, front).error)
  {
    hide At, EditAt, EditOrCreate, Eq;
    var path := front + [name];
    assert path[..|path| - 1] == front && path[|path| - 1] == name;
    EditAtMissing(d, front, Put(v));
    EditAtMissing(d, front, RemoveChild(name));
  }

  lemma FailedRemoval(d: Json, front: seq<string>, name: string)
    requires At(d, front).Ok?
    ensures var parent, r := At(d, front).value, ApplyOp(d, Remove(front + [name]));
      && (parent.Obj? && name !in parent.o ==> r == Err(OutOfRange))
      && (parent.Arr? && Stoi(name).Ok? && !(0 <= Stoi(name).value < |parent.a|) ==> r == Err(OutOfRange))
      && (parent.Arr? && Stoi(name).Err? ==> r == Err(Stoi(name).error))
  {
    hide Stoi, At, EditAt, Substituted;
    var path := front + [name];
    assert path[..|path| - 1] == front && path[|path| - 1] == name && front + [] == front;
    EditAtBelow(d, front, [], RemoveChild(name));
    BothApply(At(d, front).value, RemoveChild(name));
  }

  lemma FailedAddition(d: Json, front: seq<string>, name: string, v: Json)
    requires At(d, front).Ok?
    ensures var parent, r := At(d, front).value, ApplyOp(d, Add(front + [name], v));
      && (parent.Arr? && name != "-" && Stoi(name).Ok? && !(0 <= Stoi(name).value <= |parent.a|) ==>
            r == Err(OutOfRange))
      && (parent.Arr? && name != "-" && Stoi(name).Err? ==> r == Err(Stoi(name).error))
      && (parent.Primitive?() && !parent.Null? ==> r == Err(BrokenAssertion))
  {
    hide Stoi, At, ApplyOp, EditOrCreate, Substituted;
    AddIsEditBelow(d, front, name, v);
  }

  lemma AddIsEditBelow(d: Json, front: seq<string>, name: string, v: Json)
    requires At(d, front).Ok?
    ensures var r := InsertChild(At(d, front).value, name, v);
      r.Err? ==> ApplyOp(d, Add(front + [name], v)) == Err(r.error)
  {
    hide Stoi, At, EditOrCreate, Substituted, InsertChild;
    var sub, e := At(d, front).value, AddChild(name, v);
    FirstFound(d, front, name);
    AddAtParent(d, front, name, v);
    assert front + [] == front;
    EditOrCreateBelow(d, front, [], e);
    BothApply(sub, e);
  }

  lemma AddAtParent(d: Json, front: seq<string>, name: string, v: Json)
    requires |front + [name]| > 1 ==> At(d, (front + [name])[..1]).Ok?
    ensures ApplyOp(d, Add(front + [name], v)) == EditOrCreate(d, front, AddChild(name, v))
  {
    hide At, EditOrCreate;
    var path := front + [name];
    assert path[..|path| - 1] == front && path[|path| - 1] == name;
  }

  /** What lies above something that is found is found as well. */
  lemma FirstFound(d: Json, front: seq<string>, name: string)
    requires At(d, front).Ok?
    ensures |front + [name]| > 1 ==> At(d, (front + [name])[..1]).Ok?
  {
    hide At;
    if front != [] {
      var first := front[..1];
      assert (front + [name])[..1] == first;
      assert first + front[1..] == front;
      if At(d, first).Err? { NothingFoundBelow(d, first, front[1..]); }
    }
  }

  /** A copy to a place that cannot be created. */
  lemma FailedCopy(d: Json, from: seq<string>, front: seq<string>, name: string)
    requires At(d, from).Ok? && At(d, front).Ok?
    ensures var parent, r := At(d, front).value, ApplyOp(d, Copy(from, front + [name]));
      && (parent.Primitive?() && !parent.Null? ==> r == Err(OutOfRange))
      && (parent.Arr? && |name| > 1 && name[0] == '0' ==> r == Err(DomainError))
      && (parent.Arr? && name != "-" && !(|name| > 1 && name[0] == '0') && Stoi(name).Err? ==>
            r == Err(Stoi(name).error))
      && (parent.Arr? && name != "-" && !(|name| > 1 && name[0] == '0') && Stoi(name).Ok? && Stoi(name).value < 0 ==>
            r == Err(LengthError))
  {
    hide Stoi, At, Substituted;
    EditOrCreateBelow(d, front, [name], Put(At(d, from).value));
  }

  lemma FailedTest(d: Json, path: seq<string>, v: Json)
    requires At(d, path).Ok? && !Eq(At(d, path).value, v)
    ensures ApplyOp(d, Test(path, v)) == Err(DomainError)
    ensures ApplyOp(d, Remove([])) == Err(DomainError)
  {
  }

  lemma {:induction false} EditAtMissing(d: Json, p: seq<string>, e: Edit)
    requires At(d, p).Err?
    ensures EditAt(d, p, e) == Err(At(d, p).error)
    decreases |p|
  {
    if p != [] {
      match d
      case Obj(o) =>
        if p[0] in o { EditAtMissing(o[p[0]], p[1..], e); }
      case Arr(a) =>
        var i := CheckedIndex(a, p[0]);
        if i.Ok? { EditAtMissing(a[i.value], p[1..], e); }
      case _ =>
    }
  }

  // ----- the written form -----

  /** The six operations by the names they have in a patch document, whatever other members there are. */
  lemma OperationsByName(o: map<string, Json>, path: seq<string>, from: seq<string>)
    requires "path" in o && o["path"] == Str(ToString(path)) && "op" in o
    ensures o["op"] == Str("remove") ==> DecodeOp(Obj(o)) == Ok(Remove(path))
    ensures "value" in o ==>
      && (o["op"] == Str("add") ==> DecodeOp(Obj(o)) == Ok(Add(path, o["value"])))
      && (o["op"] == Str("replace") ==> DecodeOp(Obj(o)) == Ok(Replace(path, o["value"])))
      && (o["op"] == Str("test") ==> DecodeOp(Obj(o)) == Ok(Test(path, o["value"])))
    ensures "from" in o && o["from"] == Str(ToString(from)) ==>
      && (o["op"] == Str("move") ==> DecodeOp(Obj(o)) == Ok(Move(from, path)))
      && (o["op"] == Str("copy") ==> DecodeOp(Obj(o)) == Ok(Copy(from, path)))
    ensures !o["op"].Str? || o["op"].s !in OPERATIONS ==> DecodeOp(Obj(o)) == Err(InvalidArgument)
    ensures "value" !in o && o["op"].Str? && o["op"].s in {"add", "replace", "test"} ==>
      DecodeOp(Obj(o)) == Err(InvalidArgument)
    ensures "from" !in o && o["op"].Str? && o["op"].s in {"move", "copy"} ==> DecodeOp(Obj(o)) == Err(InvalidArgument)
  {
    hide Split;
    SplitToString(path);
    SplitToString(from);
  }

  const OPERATIONS: set<string> := {"add", "remove", "replace", "move", "copy", "test"}

  /** A patch document is an array, and its elements are applied from the first to the last, each to what the ones
      before it have left; the first exception is the answer. */
  lemma {:induction false} PatchedInOrder(d: Json, elements: seq<Json>, last: Json, other: Json)
    ensures !other.Arr? ==> Patched(d, other) == Err(InvalidArgument)
    ensures Patched(d, Arr([])) == Ok(d)
    ensures var before := Patched(d, Arr(elements));
      Patched(d, Arr(elements + [last])) ==
        if before.Err? then before
        else if DecodeOp(last).Err? then Err(DecodeOp(last).error)
        else ApplyOp(before.value, DecodeOp(last).value)
    decreases |elements|
  {
    hide DecodeOp, ApplyOp;
    var all := elements + [last];
    if elements == [] {
      var op := DecodeOp(last);
      assert all[0] == last && all[1..] == [];
      if op.Ok? && ApplyOp(d, op.value).Ok? {
        var next := ApplyOp(d, op.value).value;
        assert ApplyElements(next, all[1..]) == Ok(next);
      }
    } else {
      assert all[1..] == elements[1..] + [last];
      var op := DecodeOp(elements[0]);
      if op.Ok? {
        var next := ApplyOp(d, op.value);
        if next.Ok? { PatchedInOrder(next.value, elements[1..], last, other); }
      }
    }
  }

  /** Elements that are no objects, or lack a string member "op" or "path". */
  lemma MalformedElements(element: Json)
    requires
      || !element.Obj?
      || "op" !in element.o || !element.o["op"].Str? || "path" !in element.o || !element.o["path"].Str?
    ensures DecodeOp(element) == Err(InvalidArgument)
  {
  }
}
