/** JSON Patch (RFC 6902): resolving pointers in a document and replaying a list of operations. */
module JsonPatch {
  import opened Outcomes
  import opened Decimal
  import opened JsonPointer
  import opened JsonValue

  // ----- resolving reference tokens -----

  predicate LeadingZeroToken(token: string) {
    |token| > 1 && token[0] == '0'
  }

  /** The index `at` checks: "-" is never in range. */
  function CheckedIndex(a: seq<Json>, token: string): (r: Result<nat>)
    ensures r.Ok? ==> r.value < |a|
  {
    if token == "-" then Err(OutOfRange)
    else if LeadingZeroToken(token) then Err(DomainError)
    else
      var i :- Stoi(token);
      if 0 <= i < |a| then Ok(i) else Err(OutOfRange)
  }

  /** `get_checked`. */
  function At(j: Json, tokens: seq<string>): Result<Json>
    decreases |tokens|
  {
    if tokens == [] then Ok(j)
    else
      match j
      case Obj(o) => if tokens[0] in o then At(o[tokens[0]], tokens[1..]) else Err(OutOfRange)
      case Arr(a) => var i :- CheckedIndex(a, tokens[0]); At(a[i], tokens[1..])
      case _ => Err(OutOfRange)
  }

  /** What is done to the value a pointer resolves to. */
  datatype Edit =
    | Put(v: Json)                     // assign to the referenced value
    | AddChild(name: string, v: Json)  // insert a member or an element into it
    | RemoveChild(name: string)        // erase a member or an element of it

  function ApplyEdit(e: Edit, j: Json): Result<Json> {
    match e
    case Put(v) => Ok(v)
    case AddChild(name, v) => InsertChild(j, name, v)
    case RemoveChild(name) => EraseChild(j, name)
  }

  /** The second half of `operation_add`, on the parent. */
  function InsertChild(parent: Json, name: string, v: Json): Result<Json> {
    match parent
    case Null => Ok(Obj(map[name := v]))
    case Obj(o) => Ok(Obj(o[name := v]))
    case Arr(a) =>
      if name == "-" then Ok(Arr(a + [v]))
      else
        var i :- Stoi(name);
        if 0 <= i <= |a| then Ok(Arr(a[..i] + [v] + a[i..])) else Err(OutOfRange)
    case _ => Err(BrokenAssertion)
  }

  /** The second half of `operation_remove`; a primitive parent is silently left alone. */
  function EraseChild(parent: Json, name: string): Result<Json> {
    match parent
    case Obj(o) => if name in o then Ok(Obj(o - {name})) else Err(OutOfRange)
    case Arr(a) =>
      var i :- Stoi(name);
      if 0 <= i < |a| then Ok(Arr(a[..i] + a[i + 1..])) else Err(OutOfRange)
    case _ => Ok(parent)
  }

  /** An edit through the reference `get_checked` returns. */
  function EditAt(j: Json, tokens: seq<string>, e: Edit): Result<Json>
    decreases |tokens|
  {
    if tokens == [] then ApplyEdit(e, j)
    else
      match j
      case Obj(o) =>
        if tokens[0] in o then
          var child :- EditAt(o[tokens[0]], tokens[1..], e);
          Ok(Obj(o[tokens[0] := child]))
        else Err(OutOfRange)
      case Arr(a) =>
        var i :- CheckedIndex(a, tokens[0]);
        var child :- EditAt(a[i], tokens[1..], e);
        Ok(Arr(a[i := child]))
      case _ => Err(OutOfRange)
  }

  /** The index `operator[]` uses: "-" is one past the end.  A negative index is a length error or
      undefined behaviour in the source and an error here. */
  function GrowingIndex(a: seq<Json>, token: string): Result<nat> {
    if LeadingZeroToken(token) then Err(DomainError)
    else if token == "-" then Ok(|a|)
    else
      var i :- Stoi(token);
      if 0 <= i then Ok(i) else Err(LengthError)
  }

  /** `a` filled up with nulls so that index `i` exists. */
  function Grown(a: seq<Json>, i: nat): (g: seq<Json>)
    ensures i < |g| && a <= g
    ensures i < |a| ==> g == a
  {
    if i < |a| then a else a + seq(i + 1 - |a|, _ => Null)
  }

  /** What a null turns into before a token is looked up in it. */
  function Promoted(j: Json, token: string): Json {
    if !j.Null? then j
    else if AllDigits(token) || token == "-" then Arr([])
    else Obj(map[])
  }

  /** An edit through the reference the non-const `get_unchecked` returns, which creates what is missing. */
  function EditOrCreate(j: Json, tokens: seq<string>, e: Edit): Result<Json>
    decreases |tokens|
  {
    if tokens == [] then ApplyEdit(e, j)
    else
      match Promoted(j, tokens[0])
      case Obj(o) =>
        var existing := if tokens[0] in o then o[tokens[0]] else Null;
        var child :- EditOrCreate(existing, tokens[1..], e);
        Ok(Obj(o[tokens[0] := child]))
      case Arr(a) =>
        var i :- GrowingIndex(a, tokens[0]);
        var child :- EditOrCreate(Grown(a, i)[i], tokens[1..], e);
        Ok(Arr(Grown(a, i)[i := child]))
      case _ => Err(OutOfRange)
  }

  // ----- the patch operations -----

  datatype Op =
    | Add(path: seq<string>, v: Json)
    | Remove(path: seq<string>)
    | Replace(path: seq<string>, v: Json)
    | Move(from: seq<string>, path: seq<string>)
    | Copy(from: seq<string>, path: seq<string>)
    | Test(path: seq<string>, v: Json)

  function AddAt(j: Json, path: seq<string>, v: Json): Result<Json> {
    if path == [] then Ok(v)
    else
      var _ :- if |path| > 1 then At(j, path[..1]) else Ok(j);
      EditOrCreate(j, path[..|path| - 1], AddChild(path[|path| - 1], v))
  }

  function RemoveAt(j: Json, path: seq<string>): Result<Json> {
    if path == [] then Err(DomainError)
    else EditAt(j, path[..|path| - 1], RemoveChild(path[|path| - 1]))
  }

  function ApplyOp(j: Json, op: Op): Result<Json> {
    match op
    case Add(path, v) => AddAt(j, path, v)
    case Remove(path) => RemoveAt(j, path)
    case Replace(path, v) => EditAt(j, path, Put(v))
    case Move(from, path) =>
      var v :- At(j, from);
      var rest :- RemoveAt(j, from);
      AddAt(rest, path, v)
    case Copy(from, path) =>
      var v :- At(j, from);
      EditOrCreate(j, path, Put(v))
    case Test(path, v) =>
      match At(j, path)
      case Ok(found) => if Eq(found, v) then Ok(j) else Err(DomainError)
      case Err(e) => Err(if e == OutOfRange then DomainError else e)
  }

  function ApplyAll(j: Json, ops: seq<Op>): Result<Json>
    decreases |ops|
  {
    if ops == [] then Ok(j)
    else
      var next :- ApplyOp(j, ops[0]);
      ApplyAll(next, ops[1..])
  }

  lemma {:induction false} ApplyAllAppend(j: Json, xs: seq<Op>, ys: seq<Op>)
    requires ApplyAll(j, xs).Ok?
    ensures ApplyAll(j, xs + ys) == ApplyAll(ApplyAll(j, xs).value, ys)
    decreases |xs|
  {
    if xs == [] {
      assert xs + ys == ys;
    } else {
      assert (xs + ys)[1..] == xs[1..] + ys;
      ApplyAllAppend(ApplyOp(j, xs[0]).value, xs[1..], ys);
    }
  }

  // ----- patch documents -----

  function StringMember(o: map<string, Json>, name: string): Result<string> {
    if name in o && o[name].Str? then Ok(o[name].s) else Err(InvalidArgument)
  }

  function PointerMember(o: map<string, Json>, name: string): Result<seq<string>> {
    var path :- StringMember(o, name);
    Split(path)
  }

  function ValueMember(o: map<string, Json>): Result<Json> {
    if "value" in o then Ok(o["value"]) else Err(InvalidArgument)
  }

  /** Reading one element of a patch document. */
  function DecodeOp(element: Json): Result<Op> {
    if !element.Obj? then Err(InvalidArgument)
    else
      var op :- StringMember(element.o, "op");
      var path :- PointerMember(element.o, "path");
      if op == "add" then
        var v :- ValueMember(element.o); Ok(Add(path, v))
      else if op == "remove" then
        Ok(Remove(path))
      else if op == "replace" then
        var v :- ValueMember(element.o); Ok(Replace(path, v))
      else if op == "move" then
        var from :- PointerMember(element.o, "from"); Ok(Move(from, path))
      else if op == "copy" then
        var from :- PointerMember(element.o, "from"); Ok(Copy(from, path))
      else if op == "test" then
        var v :- ValueMember(element.o); Ok(Test(path, v))
      else
        Err(InvalidArgument)
  }

  function ApplyElements(j: Json, elements: seq<Json>): Result<Json>
    decreases |elements|
  {
    if elements == [] then Ok(j)
    else
      var op :- DecodeOp(elements[0]);
      var next :- ApplyOp(j, op);
      ApplyElements(next, elements[1..])
  }

  /** The value of `document.patch(jsonPatch)`. */
  function Patched(document: Json, jsonPatch: Json): Result<Json> {
    if jsonPatch.Arr? then ApplyElements(document, jsonPatch.a) else Err(InvalidArgument)
  }

  /** `patch`: works on a copy, one operation after the other, and gives up at the first failure. */
  method Patch(document: Json, jsonPatch: Json) returns (r: Result<Json>)
    ensures r == Patched(document, jsonPatch)
  {
    var result := document;
    if !jsonPatch.Arr? {
      return Err(InvalidArgument);
    }
    for i := 0 to |jsonPatch.a|
      invariant Patched(document, jsonPatch) == ApplyElements(result, jsonPatch.a[i..])
    {
      assert jsonPatch.a[i..][1..] == jsonPatch.a[i + 1..];
      var op :- DecodeOp(jsonPatch.a[i]);
      result :- ApplyOp(result, op);
    }
    return Ok(result);
  }

  // ----- locality -----

  /** Replacing what is at `p`. */
  function Substituted(j: Json, p: seq<string>, v: Json): Result<Json> {
    EditAt(j, p, Put(v))
  }

  /** Below a location that resolves, checked edits act on the sub-document alone. */
  lemma {:induction false} EditAtBelow(d: Json, p: seq<string>, q: seq<string>, e: Edit)
    requires At(d, p).Ok?
    ensures EditAt(d, p + q, e) ==
      var sub := EditAt(At(d, p).value, q, e);
      if sub.Ok? then Substituted(d, p, sub.value) else sub
    decreases |p|
  {
    if p == [] {
      assert p + q == q;
    } else {
      assert (p + q)[1..] == p[1..] + q;
      match d
      case Obj(o) => EditAtBelow(o[p[0]], p[1..], q, e);
      case Arr(a) => EditAtBelow(a[CheckedIndex(a, p[0]).value], p[1..], q, e);
    }
  }

  /** So do edits through a reference that may create what is missing. */
  lemma {:induction false} EditOrCreateBelow(d: Json, p: seq<string>, q: seq<string>, e: Edit)
    requires At(d, p).Ok?
    ensures EditOrCreate(d, p + q, e) ==
      var sub := EditOrCreate(At(d, p).value, q, e);
      if sub.Ok? then Substituted(d, p, sub.value) else sub
    decreases |p|
  {
    if p == [] {
      assert p + q == q;
    } else {
      assert (p + q)[1..] == p[1..] + q;
      match d
      case Obj(o) => EditOrCreateBelow(o[p[0]], p[1..], q, e);
      case Arr(a) =>
        var i := CheckedIndex(a, p[0]).value;
        assert GrowingIndex(a, p[0]) == Ok(i) && Grown(a, i) == a;
        EditOrCreateBelow(a[i], p[1..], q, e);
    }
  }

  lemma {:induction false} AtBelow(d: Json, p: seq<string>, q: seq<string>)
    requires At(d, p).Ok?
    ensures At(d, p + q) == At(At(d, p).value, q)
    decreases |p|
  {
    if p == [] {
      assert p + q == q;
    } else {
      assert (p + q)[1..] == p[1..] + q;
      match d
      case Obj(o) => AtBelow(o[p[0]], p[1..], q);
      case Arr(a) => AtBelow(a[CheckedIndex(a, p[0]).value], p[1..], q);
    }
  }

  /** A substitution succeeds where `at` does, is read back, and is overwritten by the next one. */
  lemma {:induction false} SubstitutedTwice(d: Json, p: seq<string>, v: Json, w: Json)
    requires At(d, p).Ok?
    ensures Substituted(d, p, v).Ok? && Substituted(d, p, w).Ok?
    ensures At(Substituted(d, p, v).value, p) == Ok(v)
    ensures Substituted(Substituted(d, p, v).value, p, w) == Substituted(d, p, w)
    ensures Substituted(d, p, At(d, p).value) == Ok(d)
    decreases |p|
  {
    if p != [] {
      match d
      case Obj(o) =>
        SubstitutedTwice(o[p[0]], p[1..], v, w);
        var x := Substituted(o[p[0]], p[1..], v).value;
        var y := Substituted(o[p[0]], p[1..], w).value;
        assert o[p[0] := x][p[0] := y] == o[p[0] := y];
        assert o[p[0] := o[p[0]]] == o;
      case Arr(a) =>
        var i := CheckedIndex(a, p[0]).value;
        SubstitutedTwice(a[i], p[1..], v, w);
        var x := Substituted(a[i], p[1..], v).value;
        var y := Substituted(a[i], p[1..], w).value;
        assert CheckedIndex(a[i := x], p[0]) == Ok(i);
        assert a[i := x][i := y] == a[i := y];
        assert a[i := a[i]] == a;
    }
  }

  /** The operation with every path moved below `p`. */
  function Below(p: seq<string>, op: Op): Op {
    match op
    case Add(path, v) => Add(p + path, v)
    case Remove(path) => Remove(p + path)
    case Replace(path, v) => Replace(p + path, v)
    case Move(from, path) => Move(p + from, p + path)
    case Copy(from, path) => Copy(p + from, p + path)
    case Test(path, v) => Test(p + path, v)
  }

  function AllBelow(p: seq<string>, ops: seq<Op>): (below: seq<Op>)
    ensures |below| == |ops|
  {
    if ops == [] then [] else [Below(p, ops[0])] + AllBelow(p, ops[1..])
  }

  /** Operations that name no neighbour of the root: adding or removing at the root itself means
      something else once the root has siblings. */
  predicate Local(op: Op) {
    match op
    case Add(path, _) => path != []
    case Remove(path) => path != []
    case Move(from, path) => from != [] && path != []
    case _ => true
  }

  lemma AddAtBelow(d: Json, p: seq<string>, path: seq<string>, v: Json)
    requires At(d, p).Ok? && path != []
    requires AddAt(At(d, p).value, path, v).Ok?
    ensures AddAt(d, p + path, v) == Substituted(d, p, AddAt(At(d, p).value, path, v).value)
  {
    hide EditOrCreate, Substituted;
    var full := p + path;
    assert full[..|full| - 1] == p + path[..|path| - 1];
    EditOrCreateBelow(d, p, path[..|path| - 1], AddChild(path[|path| - 1], v));
    if p == [] {
      assert full == path;
    } else {
      assert p == p[..1] + p[1..] && full[..1] == p[..1];
      assert At(d, p[..1]).Ok?;
    }
  }

  lemma RemoveAtBelow(d: Json, p: seq<string>, path: seq<string>)
    requires At(d, p).Ok? && path != []
    requires RemoveAt(At(d, p).value, path).Ok?
    ensures RemoveAt(d, p + path) == Substituted(d, p, RemoveAt(At(d, p).value, path).value)
  {
    var full := p + path;
    assert full[..|full| - 1] == p + path[..|path| - 1];
    EditAtBelow(d, p, path[..|path| - 1], RemoveChild(path[|path| - 1]));
  }

  /** One operation that succeeds on a sub-document changes just that sub-document when its paths
      are prefixed with the way there. */
  lemma ApplyOpBelow(d: Json, p: seq<string>, op: Op)
    requires At(d, p).Ok? && Local(op)
    requires ApplyOp(At(d, p).value, op).Ok?
    ensures ApplyOp(d, Below(p, op)) == Substituted(d, p, ApplyOp(At(d, p).value, op).value)
  {
    var sub := At(d, p).value;
    match op
    case Add(path, v) =>
      AddAtBelow(d, p, path, v);
    case Remove(path) =>
      RemoveAtBelow(d, p, path);
    case Replace(path, v) =>
      EditAtBelow(d, p, path, Put(v));
    case Move(from, path) =>
      AtBelow(d, p, from);
      RemoveAtBelow(d, p, from);
      var v := At(sub, from).value;
      var rest := RemoveAt(sub, from).value;
      SubstitutedTwice(d, p, rest, AddAt(rest, path, v).value);
      AddAtBelow(Substituted(d, p, rest).value, p, path, v);
    case Copy(from, path) =>
      AtBelow(d, p, from);
      EditOrCreateBelow(d, p, path, Put(At(sub, from).value));
    case Test(path, v) =>
      AtBelow(d, p, path);
      SubstitutedTwice(d, p, sub, sub);
  }

  /** Locality: a patch that succeeds on the sub-document at `p` does, with `p` put before all its
      paths, to the whole document exactly the substitution of the patched sub-document. */
  lemma {:induction false} PatchIsLocal(d: Json, p: seq<string>, ops: seq<Op>)
    requires At(d, p).Ok? && forall i | 0 <= i < |ops| :: Local(ops[i])
    requires ApplyAll(At(d, p).value, ops).Ok?
    ensures ApplyAll(d, AllBelow(p, ops)) == Substituted(d, p, ApplyAll(At(d, p).value, ops).value)
    decreases |ops|
  {
    var sub := At(d, p).value;
    if ops == [] {
      SubstitutedTwice(d, p, sub, sub);
    } else {
      ApplyOpBelow(d, p, ops[0]);
      var next := ApplyOp(sub, ops[0]).value;
      var final := ApplyAll(sub, ops).value;
      SubstitutedTwice(d, p, next, final);
      PatchIsLocal(Substituted(d, p, next).value, p, ops[1..]);
    }
  }

  /** Where a pointer leads: two spellings of one array index are one step. */
  datatype Step = Member(name: string) | Element(index: nat)

  function Location(j: Json, tokens: seq<string>): (l: seq<Step>)
    requires At(j, tokens).Ok?
    ensures |l| == |tokens|
    decreases |tokens|
  {
    if tokens == [] then []
    else
      match j
      case Obj(o) => [Member(tokens[0])] + Location(o[tokens[0]], tokens[1..])
      case Arr(a) =>
        var i := CheckedIndex(a, tokens[0]).value;
        [Element(i)] + Location(a[i], tokens[1..])
  }

  /** A substitution leaves every location alone that neither contains nor lies in the one it is for. */
  lemma {:induction false} SubstitutedElsewhere(d: Json, p: seq<string>, v: Json, q: seq<string>)
    requires At(d, p).Ok? && At(d, q).Ok?
    requires !(Location(d, p) <= Location(d, q)) && !(Location(d, q) <= Location(d, p))
    ensures Substituted(d, p, v).Ok? && At(Substituted(d, p, v).value, q) == At(d, q)
    decreases |p|
  {
    SubstitutedTwice(d, p, v, v);
    assert p != [] && q != [];
    match d
    case Obj(o) =>
      if p[0] == q[0] {
        assert Location(d, p)[1..] == Location(o[p[0]], p[1..]);
        assert Location(d, q)[1..] == Location(o[p[0]], q[1..]);
        SubstitutedElsewhere(o[p[0]], p[1..], v, q[1..]);
      }
    case Arr(a) =>
      var i, k := CheckedIndex(a, p[0]).value, CheckedIndex(a, q[0]).value;
      var x := Substituted(a[i], p[1..], v).value;
      assert CheckedIndex(a[i := x], q[0]) == Ok(k);
      if i == k {
        assert Location(d, p)[1..] == Location(a[i], p[1..]);
        assert Location(d, q)[1..] == Location(a[i], q[1..]);
        SubstitutedElsewhere(a[i], p[1..], v, q[1..]);
      }
  }

  // ----- what an operation does where it points -----

  lemma {:induction false} EditAtReads(d: Json, p: seq<string>, e: Edit)
    requires EditAt(d, p, e).Ok?
    ensures At(d, p).Ok? && At(EditAt(d, p, e).value, p) == ApplyEdit(e, At(d, p).value)
    decreases |p|
  {
    hide ApplyEdit;
    if p != [] {
      match d
      case Obj(o) =>
        EditAtReads(o[p[0]], p[1..], e);
      case Arr(a) =>
        EditAtReads(a[CheckedIndex(a, p[0]).value], p[1..], e);
    }
  }

  /** If the place can be read afterwards, it holds an edited value. */
  lemma {:induction false} EditOrCreateReads(d: Json, p: seq<string>, e: Edit)
    requires EditOrCreate(d, p, e).Ok? && At(EditOrCreate(d, p, e).value, p).Ok?
    ensures exists x :: ApplyEdit(e, x) == At(EditOrCreate(d, p, e).value, p)
    decreases |p|
  {
    hide ApplyEdit;
    if p == [] {
      assert ApplyEdit(e, d) == At(EditOrCreate(d, p, e).value, p);
    } else {
      match Promoted(d, p[0])
      case Obj(o) =>
        EditOrCreateReads(if p[0] in o then o[p[0]] else Null, p[1..], e);
      case Arr(a) =>
        EditOrCreateReads(Grown(a, GrowingIndex(a, p[0]).value)[GrowingIndex(a, p[0]).value], p[1..], e);
    }
  }

  lemma InsertedChildReads(parent: Json, name: string, v: Json)
    requires InsertChild(parent, name, v).Ok? && At(InsertChild(parent, name, v).value, [name]).Ok?
    ensures At(InsertChild(parent, name, v).value, [name]).value == v
  {
    assert [name][1..] == [];
  }

  lemma AddedReads(d: Json, path: seq<string>, v: Json)
    requires AddAt(d, path, v).Ok? && At(AddAt(d, path, v).value, path).Ok?
    ensures At(AddAt(d, path, v).value, path).value == v
  {
    if path != [] {
      var front, name := path[..|path| - 1], path[|path| - 1];
      var r := AddAt(d, path, v).value;
      assert path == front + [name];
      hide EditOrCreate, AddAt, InsertChild;
      assert At(r, front).Ok? && At(r, path) == At(At(r, front).value, [name]) by {
        AtSplit(r, front, [name]);
      }
      assert r == EditOrCreate(d, front, AddChild(name, v)).value by { AddIsEdit(d, path, v); }
      AddIsEdit(d, path, v);
      EditOrCreateReads(d, front, AddChild(name, v));
      var x :| ApplyEdit(AddChild(name, v), x) == At(r, front);
      InsertedChildReads(x, name, v);
    }
  }

  lemma AddIsEdit(d: Json, path: seq<string>, v: Json)
    requires path != [] && AddAt(d, path, v).Ok?
    ensures AddAt(d, path, v) == EditOrCreate(d, path[..|path| - 1], AddChild(path[|path| - 1], v))
  {
  }

  lemma {:induction false} AtSplit(d: Json, p: seq<string>, q: seq<string>)
    requires At(d, p + q).Ok?
    ensures At(d, p).Ok? && At(d, p + q) == At(At(d, p).value, q)
    decreases |p|
  {
    var full := p + q;
    if p == [] {
      assert full == q;
    } else {
      assert full[1..] == p[1..] + q;
      match d
      case Obj(o) => AtSplit(o[p[0]], p[1..], q);
      case Arr(a) => AtSplit(a[CheckedIndex(a, p[0]).value], p[1..], q);
    }
  }

  /** What an operation on `d` has done in `r` where it points (section 4 of RFC 6902). */
  predicate Effect(d: Json, op: Op, r: Json) {
    match op
    case Add(path, v) => At(r, path).Ok? ==> At(r, path).value == v
    case Replace(path, v) => At(d, path).Ok? && At(r, path) == Ok(v)
    case Remove(path) => path != [] && Removed(d, path[..|path| - 1], path[|path| - 1], r)
    case Move(from, path) => At(d, from).Ok? && (At(r, path).Ok? ==> At(r, path) == At(d, from))
    case Copy(from, path) => At(d, from).Ok? && (At(r, path).Ok? ==> At(r, path) == At(d, from))
    case Test(path, v) => At(d, path).Ok? && Eq(At(d, path).value, v) && r == d
  }

  predicate Removed(d: Json, parent: seq<string>, name: string, r: Json) {
    At(d, parent).Ok? && At(r, parent) == EraseChild(At(d, parent).value, name)
  }

  /** Every successful operation has its effect: what was added, replaced, moved or copied is found at its
      path, what was removed is erased from its parent, and a test holds and changes nothing. */
  lemma EffectOf(d: Json, op: Op)
    requires ApplyOp(d, op).Ok?
    ensures Effect(d, op, ApplyOp(d, op).value)
  {
    hide At, EditAt, EditOrCreate, AddAt, EraseChild, InsertChild, Eq;
    var r := ApplyOp(d, op).value;
    match op {
      case Add(path, v) =>
        if At(r, path).Ok? { AddedReads(d, path, v); }
      case Replace(path, v) =>
        EditAtReads(d, path, Put(v));
      case Remove(path) =>
        EditAtReads(d, path[..|path| - 1], RemoveChild(path[|path| - 1]));
      case Move(from, path) =>
        if At(r, path).Ok? { AddedReads(RemoveAt(d, from).value, path, At(d, from).value); }
      case Copy(from, path) =>
        if At(r, path).Ok? { EditOrCreateReads(d, path, Put(At(d, from).value)); }
      case Test(path, v) =>
    }
  }
}
