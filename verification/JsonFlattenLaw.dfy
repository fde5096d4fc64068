/** When `unflatten` restores what `flatten` took apart. */
module JsonFlattenLaw {
  import opened Outcomes
  import opened Decimal
  import opened JsonPointer
  import opened JsonValue
  import opened JsonPatch
  import opened JsonFlatten

  /** One assignment of `unflatten`. */
  datatype Entry = Entry(path: seq<string>, v: Json)

  function Run(j: Json, es: seq<Entry>): Result<Json>
    decreases |es|
  {
    if es == [] then Ok(j)
    else
      var next :- CreateAt(j, es[0].path, es[0].v);
      Run(next, es[1..])
  }

  // ----- the condition -----

  /** A member `k` whose pointers all come before those of the member "0" with value `zero`: the
      first byte that differs from 0, or from the slash after it, is smaller. */
  predicate BeforeZero(k: string, zero: Json) {
    || k == ""
    || k[0] < '/'
    || (k[0] == '0' && |k| > 1 && k[1] < '/' && Structured(zero))
  }

  /** A container that is not empty. */
  predicate Structured(j: Json) {
    (j.Arr? && j.a != []) || (j.Obj? && j.o != map[])
  }

  /** The member "0" comes first when the flattened object is read in key order. */
  predicate ZeroFirst(o: map<string, Json>) {
    "0" in o && forall k | k in o :: k == "0" || !BeforeZero(k, o["0"])
  }

  /** No empty container, no array with an index beyond `int`, and no object that `unflatten` takes
      for an array because it meets the token "0" first. */
  predicate Restorable(j: Json) {
    match j
    case Arr(a) => a != [] && |a| <= INT_MAX + 1 && forall i | 0 <= i < |a| :: Restorable(a[i])
    case Obj(o) => o != map[] && !ZeroFirst(o) && forall k | k in o :: Restorable(o[k])
    case _ => true
  }

  // ----- assignments below one token -----

  /** The assignments whose paths start with `token`, seen from below it. */
  function Under(es: seq<Entry>, token: string): (u: seq<Entry>)
    decreases |es|
  {
    if es == [] then []
    else if es[0].path != [] && es[0].path[0] == token then
      [Entry(es[0].path[1..], es[0].v)] + Under(es[1..], token)
    else Under(es[1..], token)
  }

  ghost predicate Rooted(es: seq<Entry>) {
    forall i | 0 <= i < |es| :: es[i].path != []
  }

  /** How a run on an object splits into runs on its members. */
  lemma {:induction false} RunObject(o: map<string, Json>, es: seq<Entry>)
    requires Rooted(es)
    ensures Run(Obj(o), es).Ok? <==> forall t :: Run(MemberOrNull(o, t), Under(es, t)).Ok?
    ensures Run(Obj(o), es).Ok? ==> Run(Obj(o), es).value.Obj?
    ensures Run(Obj(o), es).Ok? ==> forall t :: t in Run(Obj(o), es).value.o <==> t in o || Under(es, t) != []
    ensures Run(Obj(o), es).Ok? ==> forall t ::
      MemberOrNull(Run(Obj(o), es).value.o, t) == Run(MemberOrNull(o, t), Under(es, t)).value
    decreases |es|
  {
    if es != [] {
      var t0, q, v := es[0].path[0], es[0].path[1..], es[0].v;
      var child := CreateAt(MemberOrNull(o, t0), q, v);
      assert Under(es, t0) == [Entry(q, v)] + Under(es[1..], t0);
      assert Under(es, t0)[1..] == Under(es[1..], t0);
      if child.Ok? {
        var next := o[t0 := child.value];
        RunObject(next, es[1..]);
        forall t
          ensures Run(MemberOrNull(o, t), Under(es, t)) == Run(MemberOrNull(next, t), Under(es[1..], t))
        {
          if t != t0 {
            assert Under(es, t) == Under(es[1..], t);
          }
        }
      } else {
        assert Run(MemberOrNull(o, t0), Under(es, t0)).Err?;
      }
    }
  }

  /** Tokens for the indices of an array. */
  ghost predicate IndexNames(names: seq<string>) {
    && (forall i | 0 <= i < |names| :: Stoi(names[i]) == Ok(i))
    && (forall i, k | 0 <= i < k < |names| :: names[i] != names[k])
  }

  ghost predicate Indexed(es: seq<Entry>, names: seq<string>) {
    Rooted(es) && forall i | 0 <= i < |es| :: es[i].path[0] in names
  }

  function ElementOrNull(a: seq<Json>, i: nat): Json {
    if i < |a| then a[i] else Null
  }

  /** One assignment below the index `k` of an array. */
  lemma CreateInArray(a: seq<Json>, k: nat, path: seq<string>, v: Json)
    requires path != [] && Stoi(path[0]) == Ok(k)
    ensures var child := CreateAt(ElementOrNull(a, k), path[1..], v);
      CreateAt(Arr(a), path, v) == if child.Ok? then Ok(Arr(Grown(a, k)[k := child.value])) else child
  {
    assert Grown(a, k)[k] == ElementOrNull(a, k);
  }

  lemma UnderStep(es: seq<Entry>, token: string)
    requires es != []
    ensures es[0].path != [] && es[0].path[0] == token ==>
      Under(es, token) != [] && Under(es, token)[0] == Entry(es[0].path[1..], es[0].v)
      && Under(es, token)[1..] == Under(es[1..], token)
    ensures !(es[0].path != [] && es[0].path[0] == token) ==> Under(es, token) == Under(es[1..], token)
  {
  }

  /** What the first assignment, below `token`, leaves to do for the element `i` named `name`. */
  lemma ElementStep(a: seq<Json>, es: seq<Entry>, token: string, k: nat, child: Json, name: string, i: nat)
    requires es != [] && es[0].path != [] && es[0].path[0] == token && (name == token <==> i == k)
    requires CreateAt(ElementOrNull(a, k), es[0].path[1..], es[0].v) == Ok(child)
    ensures Run(ElementOrNull(a, i), Under(es, name)) ==
      Run(ElementOrNull(Grown(a, k)[k := child], i), Under(es[1..], name))
  {
    UnderStep(es, name);
  }

  /** The element `i` after a run on an array. */
  ghost predicate ElementDone(a: seq<Json>, es: seq<Entry>, name: string, i: nat, after: seq<Json>) {
    && Run(ElementOrNull(a, i), Under(es, name)) == Ok(ElementOrNull(after, i))
    && (Under(es, name) != [] ==> i < |after|)
  }

  /** How a run on an array splits into runs on its elements. */
  lemma {:induction false} RunArray(a: seq<Json>, es: seq<Entry>, names: seq<string>)
    requires IndexNames(names) && Indexed(es, names) && |a| <= |names|
    ensures var run := Run(Arr(a), es);
      if run.Ok? then run.value.Arr? && |a| <= |run.value.a| <= |names|
        && forall i | 0 <= i < |names| :: ElementDone(a, es, names[i], i, run.value.a)
      else exists i | 0 <= i < |names| :: Run(ElementOrNull(a, i), Under(es, names[i])).Err?
    decreases |es|
  {
    if es != [] {
      var token := es[0].path[0];
      var k :| 0 <= k < |names| && names[k] == token;
      CreateInArray(a, k, es[0].path, es[0].v);
      var child := CreateAt(ElementOrNull(a, k), es[0].path[1..], es[0].v);
      if child.Ok? {
        var next := Grown(a, k)[k := child.value];
        RunArray(next, es[1..], names);
        var run := Run(Arr(next), es[1..]);
        assert Run(Arr(a), es) == run;
        forall i | 0 <= i < |names|
          ensures Run(ElementOrNull(a, i), Under(es, names[i])) == Run(ElementOrNull(next, i), Under(es[1..], names[i]))
          ensures run.Ok? ==> ElementDone(a, es, names[i], i, run.value.a)
        {
          ElementStep(a, es, token, k, child.value, names[i], i);
          UnderStep(es, names[i]);
          assert run.Ok? ==> ElementDone(next, es[1..], names[i], i, run.value.a);
        }
      } else {
        UnderStep(es, token);
        assert Run(ElementOrNull(a, k), Under(es, names[k])).Err?;
      }
    }
  }

  /** A run on an array stays on an array, and needs every first token to be an index. */
  lemma {:induction false} RunKeepsArray(a: seq<Json>, es: seq<Entry>, e: Entry)
    requires Rooted(es) && e in es && Run(Arr(a), es).Ok?
    ensures Run(Arr(a), es).value.Arr? && Stoi(e.path[0]).Ok?
    decreases |es|
  {
    var next := CreateAt(Arr(a), es[0].path, es[0].v);
    assert next.value.Arr? && Stoi(es[0].path[0]).Ok?;
    if e != es[0] {
      RunKeepsArray(next.value.a, es[1..], e);
    } else if |es| > 1 {
      RunKeepsArray(next.value.a, es[1..], es[1]);
    }
  }

  /** The first token decides between array and object. */
  lemma RunFromNull(es: seq<Entry>)
    requires es != [] && Rooted(es)
    ensures Run(Null, es) == Run(if es[0].path[0] == "0" then Arr([]) else Obj(map[]), es)
  {
    var path, v := es[0].path, es[0].v;
    var child := CreateAt(Null, path[1..], v);
    if path[0] == "0" {
      LeadingZero(0);
      StoiOfIndex(0);
      CreateInArray([], 0, path, v);
      assert child.Ok? ==> Grown([], 0)[0 := child.value] == [child.value];
    } else {
      assert child.Ok? ==> (map[])[path[0] := child.value] == map[path[0] := child.value];
    }
  }

  // ----- the order of pointers -----

  /** The order in which a flattened object lists two pointers. */
  predicate PathLess(p: seq<string>, q: seq<string>) {
    Less(ToString(p), ToString(q))
  }

  lemma {:induction false} LessAfterPrefix(x: string, a: string, b: string)
    ensures Less(x + a, x + b) <==> Less(a, b)
  {
    if x == [] {
      assert x + a == a && x + b == b;
    } else {
      LessAfterPrefix(x[1..], a, b);
      assert (x + a)[1..] == x[1..] + a && (x + b)[1..] == x[1..] + b;
    }
  }

  lemma PathLessBelow(token: string, p: seq<string>, q: seq<string>)
    ensures PathLess([token] + p, [token] + q) <==> PathLess(p, q)
  {
    ToStringCons(token, p);
    ToStringCons(token, q);
    LessAfterPrefix(Segment(token), ToString(p), ToString(q));
  }

  /** What follows the token "0" in a pointer: nothing, or a slash. */
  lemma TailOfPointer(p: seq<string>)
    ensures p == [] ==> ToString(p) == ""
    ensures p != [] ==> ToString(p) != "" && ToString(p)[0] == '/'
  {
    if p != [] {
      ToStringCons(p[0], p[1..]);
      assert p == [p[0]] + p[1..];
    }
  }

  lemma EscapeFirst(k: string)
    ensures k == "" ==> Escape(k) == ""
    ensures k != "" ==> Escape(k) == EscapeChar(k[0]) + Escape(k[1..])
  {
    if k != "" {
      EscapeStep(k[0], k[1..]);
      assert k == [k[0]] + k[1..];
    }
  }

  lemma LessByFirst(a: string, b: string)
    requires a != "" && b != "" && a[0] != b[0]
    ensures Less(a, b) <==> a[0] < b[0]
  {
  }

  /** Two texts that go on after a common 0. */
  lemma TextAfterZero(k: string, x: string, y: string)
    requires |k| > 1 && k[0] == '0'
    requires y == "" || y[0] == '/'
    ensures if k[1] < '/' && y != "" then Less(Escape(k) + x, "0" + y) else Less("0" + y, Escape(k) + x)
  {
    var rest := Escape(k[1..]) + x;
    EscapeFirst(k);
    assert Escape(k) + x == "0" + rest;
    LessAfterPrefix("0", rest, y);
    LessAfterPrefix("0", y, rest);
    EscapeFirst(k[1..]);
    assert rest[0] == EscapeChar(k[1])[0];
    if y != "" {
      LessByFirst(rest, y);
      LessByFirst(y, rest);
    }
  }

  /** The comparison behind `BeforeZero`: `x` and `y` follow the tokens `k` and "0". */
  lemma TextBeforeZero(k: string, x: string, y: string)
    requires k != "0"
    requires x == "" || x[0] == '/'
    requires y == "" || y[0] == '/'
    ensures var before := k == "" || k[0] < '/' || (k[0] == '0' && |k| > 1 && k[1] < '/' && y != "");
      if before then Less(Escape(k) + x, "0" + y) else Less("0" + y, Escape(k) + x)
  {
    if k == "" {
      EscapeFirst(k);
      assert Escape(k) + x == x;
      if x != "" { LessByFirst(x, "0" + y); }
    } else if k[0] == '0' {
      assert |k| > 1 by { assert k == "0" + k[1..]; }
      TextAfterZero(k, x, y);
    } else {
      EscapeFirst(k);
      assert (Escape(k) + x)[0] == EscapeChar(k[0])[0];
      LessByFirst(Escape(k) + x, "0" + y);
      LessByFirst("0" + y, Escape(k) + x);
    }
  }

  /** Leaves of a value that is no structured container sit at its root, others below. */
  lemma LeafDepth(j: Json, p: seq<string>)
    requires p in Leaves(j)
    ensures p != [] <==> Structured(j)
    ensures !Structured(j) ==> Leaves(j) == map[[] := if j.Primitive?() then j else Null]
  {
    if j.Arr? && j.a != [] {
      ArrayLeaf(j, p);
    } else if j.Obj? && j.o != map[] {
      ObjectLeaf(j, p);
    }
  }

  lemma TokenText(k: string, p: seq<string>)
    ensures ToString([k] + p) == "/" + (Escape(k) + ToString(p))
  {
    ToStringCons(k, p);
    assert Segment(k) == "/" + Escape(k);
    var a, b := Escape(k), ToString(p);
    assert "/" + a + b == "/" + (a + b);
  }

  lemma LessAfterSlash(s: string, t: string, x: string, y: string)
    requires s == "/" + x && t == "/" + y
    ensures Less(s, t) <==> Less(x, y)
  {
    LessAfterPrefix("/", x, y);
  }

  lemma PathLessText(k: string, p: seq<string>, z: string, q: seq<string>)
    ensures PathLess([k] + p, [z] + q) <==> Less(Escape(k) + ToString(p), Escape(z) + ToString(q))
  {
    TokenText(k, p);
    TokenText(z, q);
    LessAfterSlash(ToString([k] + p), ToString([z] + q), Escape(k) + ToString(p), Escape(z) + ToString(q));
  }

  /** Pointers into a member come before or after all pointers into the member "0". */
  lemma BeforeZeroLess(k: string, r: seq<string>, zero: Json, q: seq<string>)
    requires k != "0" && q in Leaves(zero)
    ensures if BeforeZero(k, zero) then PathLess([k] + r, ["0"] + q) else PathLess(["0"] + q, [k] + r)
  {
    LeafDepth(zero, q);
    TailOfPointer(r);
    TailOfPointer(q);
    PathLessText(k, r, "0", q);
    PathLessText("0", q, k, r);
    assert Escape("0") == "0" by { EscapeDigits("0"); }
    TextBeforeZero(k, ToString(r), ToString(q));
  }

  // ----- a flattened document as a run -----

  /** `es` are the leaves of `j`, in the order of their pointers. */
  ghost predicate IsFlat(es: seq<Entry>, j: Json) {
    && (forall i, k | 0 <= i < k < |es| :: PathLess(es[i].path, es[k].path))
    && (forall e | e in es :: e.path in Leaves(j) && e.v == Leaves(j)[e.path])
    && (forall p | p in Leaves(j) :: Entry(p, Leaves(j)[p]) in es)
  }

  lemma {:induction false} UnderMember(es: seq<Entry>, token: string, e: Entry)
    ensures e in Under(es, token) <==> Entry([token] + e.path, e.v) in es
    decreases |es|
  {
    if es != [] {
      UnderMember(es[1..], token, e);
      UnderStep(es, token);
      var full := Entry([token] + e.path, e.v);
      assert full in es <==> full == es[0] || full in es[1..];
      assert full.path[1..] == e.path;
      if es[0].path != [] && es[0].path[0] == token {
        assert es[0].path == [token] + es[0].path[1..];
      }
    }
  }

  lemma {:induction false} UnderInOrder(es: seq<Entry>, token: string)
    requires forall i, k | 0 <= i < k < |es| :: PathLess(es[i].path, es[k].path)
    ensures var u := Under(es, token); forall i, k | 0 <= i < k < |u| :: PathLess(u[i].path, u[k].path)
    decreases |es|
  {
    if es != [] {
      UnderInOrder(es[1..], token);
      UnderStep(es, token);
      var u, rest := Under(es, token), Under(es[1..], token);
      if es[0].path != [] && es[0].path[0] == token {
        forall k | 0 < k < |u| ensures PathLess(u[0].path, u[k].path) {
          UnderMember(es[1..], token, rest[k - 1]);
          var m :| 0 <= m < |es[1..]| && es[1..][m] == Entry([token] + rest[k - 1].path, rest[k - 1].v);
          assert es[m + 1] == es[1..][m];
          assert es[0].path == [token] + es[0].path[1..];
          PathLessBelow(token, u[0].path, u[k].path);
        }
        forall i, k | 0 <= i < k < |u| ensures PathLess(u[i].path, u[k].path) {
          if i > 0 {
            assert u[i] == rest[i - 1] && u[k] == rest[k - 1];
          }
        }
      }
    }
  }

  /** The part of a flattened document below one token is that child, flattened. */
  lemma UnderIsFlat(es: seq<Entry>, j: Json, token: string, child: Json)
    requires IsFlat(es, j)
    requires forall q :: [token] + q in Leaves(j) <==> q in Leaves(child)
    requires forall q | q in Leaves(child) :: Leaves(j)[[token] + q] == Leaves(child)[q]
    ensures IsFlat(Under(es, token), child) && Under(es, token) != []
  {
    UnderInOrder(es, token);
    var u := Under(es, token);
    forall e | e in u ensures e.path in Leaves(child) && e.v == Leaves(child)[e.path] {
      UnderMember(es, token, e);
    }
    forall q | q in Leaves(child) ensures Entry(q, Leaves(child)[q]) in u {
      UnderMember(es, token, Entry(q, Leaves(child)[q]));
    }
    var q := HasLeaf(child);
    assert Entry(q, Leaves(child)[q]) in u;
  }

  lemma FlatOfUnstructured(j: Json, es: seq<Entry>)
    requires IsFlat(es, j) && !Structured(j)
    ensures es == [Entry([], if j.Primitive?() then j else Null)]
  {
    var q := HasLeaf(j);
    LeafDepth(j, q);
    var e := Entry(q, Leaves(j)[q]);
    assert e in es;
    forall x | x in es ensures x == e {}
    if |es| > 1 {
      assert es[0] in es && es[1] in es;
      LessIrreflexive(ToString(es[0].path));
      assert false;
    }
  }

  lemma FlatIsRooted(j: Json, es: seq<Entry>)
    requires IsFlat(es, j) && Structured(j)
    ensures Rooted(es) && es != []
  {
    forall i | 0 <= i < |es| ensures es[i].path != [] {
      assert es[i] in es;
      LeafDepth(j, es[i].path);
    }
    var q := HasLeaf(j);
    assert Entry(q, Leaves(j)[q]) in es;
  }

  /** No entry comes before the first. */
  lemma FirstIsLeast(j: Json, es: seq<Entry>, p: seq<string>)
    requires IsFlat(es, j) && p in Leaves(j)
    ensures es != [] && (es[0].path == p || PathLess(es[0].path, p)) && !PathLess(p, es[0].path)
  {
    var k :| 0 <= k < |es| && es[k] == Entry(p, Leaves(j)[p]);
    LessIrreflexive(ToString(p));
    if k > 0 {
      assert PathLess(es[0].path, es[k].path);
      if PathLess(p, es[0].path) {
        LessTransitive(ToString(p), ToString(es[0].path), ToString(p));
      }
    }
  }

  // ----- the law -----

  /** The first entry below an array goes to the index 0. */
  lemma ArrayStartsAtZero(j: Json, es: seq<Entry>)
    requires j.Arr? && j.a != [] && IsFlat(es, j)
    ensures es != [] && es[0].path != [] && es[0].path[0] == "0"
  {
    FlatIsRooted(j, es);
    LeadingZero(0);
    var q := HasLeaf(j.a[0]);
    ElementLeaf(j, 0, q);
    FirstIsLeast(j, es, ["0"] + q);
    var token := es[0].path[0];
    assert es[0] in es;
    ArrayLeaf(j, es[0].path);
    var i := IndexOf(token, |j.a|).value;
    if i > 0 {
      LeadingZero(i);
      assert IsDigit(token[0]);
      assert es[0].path == [token] + es[0].path[1..];
      BeforeZeroLess(token, es[0].path[1..], j.a[0], q);
    }
  }

  /** An object is taken for an array exactly when its member "0" comes first. */
  lemma ObjectStart(j: Json, es: seq<Entry>)
    requires j.Obj? && j.o != map[] && IsFlat(es, j)
    ensures es != [] && es[0].path != [] && (es[0].path[0] == "0" <==> ZeroFirst(j.o))
  {
    FlatIsRooted(j, es);
    var k0 := es[0].path[0];
    var r0 := es[0].path[1..];
    assert es[0].path == [k0] + r0 && es[0] in es;
    ObjectLeaf(j, es[0].path);
    if k0 == "0" {
      forall k | k in j.o && k != "0" ensures !BeforeZero(k, j.o["0"]) {
        var r := HasLeaf(j.o[k]);
        MemberLeaf(j, k, r);
        BeforeZeroLess(k, r, j.o["0"], r0);
        FirstIsLeast(j, es, [k] + r);
      }
    } else if "0" in j.o {
      var q := HasLeaf(j.o["0"]);
      MemberLeaf(j, "0", q);
      FirstIsLeast(j, es, ["0"] + q);
      BeforeZeroLess(k0, r0, j.o["0"], q);
    }
  }

  function IndexTokens(n: nat): (names: seq<string>)
    ensures |names| == n && forall i | 0 <= i < n :: names[i] == ToDecimal(i)
  {
    seq(n, i requires i >= 0 => ToDecimal(i))
  }

  lemma IndexTokensAreNames(n: nat)
    requires n <= INT_MAX + 1
    ensures IndexNames(IndexTokens(n))
  {
    var names := IndexTokens(n);
    forall i | 0 <= i < n ensures Stoi(names[i]) == Ok(i) { StoiOfIndex(i); }
  }

  lemma ArrayIsIndexed(j: Json, es: seq<Entry>)
    requires j.Arr? && j.a != [] && IsFlat(es, j)
    ensures Indexed(es, IndexTokens(|j.a|))
  {
    FlatIsRooted(j, es);
    var names := IndexTokens(|j.a|);
    forall i | 0 <= i < |es| ensures es[i].path[0] in names {
      assert es[i] in es;
      ArrayLeaf(j, es[i].path);
      assert names[IndexOf(es[i].path[0], |j.a|).value] == es[i].path[0];
    }
  }

  lemma ElementIsFlat(j: Json, es: seq<Entry>, i: nat)
    requires j.Arr? && i < |j.a| && IsFlat(es, j)
    ensures IsFlat(Under(es, ToDecimal(i)), j.a[i]) && Under(es, ToDecimal(i)) != []
  {
    forall q
      ensures [ToDecimal(i)] + q in Leaves(j) <==> q in Leaves(j.a[i])
      ensures q in Leaves(j.a[i]) ==> Leaves(j)[[ToDecimal(i)] + q] == Leaves(j.a[i])[q]
    {
      ElementLeaf(j, i, q);
    }
    UnderIsFlat(es, j, ToDecimal(i), j.a[i]);
  }

  lemma MemberIsFlat(j: Json, es: seq<Entry>, k: string)
    requires j.Obj? && k in j.o && IsFlat(es, j)
    ensures IsFlat(Under(es, k), j.o[k]) && Under(es, k) != []
  {
    forall q
      ensures [k] + q in Leaves(j) <==> q in Leaves(j.o[k])
      ensures q in Leaves(j.o[k]) ==> Leaves(j)[[k] + q] == Leaves(j.o[k])[q]
    {
      MemberLeaf(j, k, q);
    }
    UnderIsFlat(es, j, k, j.o[k]);
  }

  /** Whatever compares equal to the document is the document itself: leaves keep their kinds. */
  predicate Faithful(j: Json, r: Result<Json>) {
    r.Ok? && Eq(j, r.value) ==> r.value == j
  }

  lemma ElementsFaithful(a: seq<Json>, r: seq<Json>)
    requires |r| == |a|
    requires forall i | 0 <= i < |a| :: (r[i] == a[i] <==> Restorable(a[i])) && Faithful(a[i], Ok(r[i]))
    ensures r == a <==> forall i | 0 <= i < |a| :: Restorable(a[i])
    ensures Faithful(Arr(a), Ok(Arr(r)))
  {
    assert r == a <==> forall i | 0 <= i < |a| :: r[i] == a[i];
  }

  lemma MembersFaithful(o: map<string, Json>, m: map<string, Json>)
    requires m.Keys == o.Keys
    requires forall k | k in o :: (m[k] == o[k] <==> Restorable(o[k])) && Faithful(o[k], Ok(m[k]))
    ensures m == o <==> forall k | k in o :: Restorable(o[k])
    ensures Faithful(Obj(o), Ok(Obj(m)))
  {
    assert m == o <==> forall k | k in o :: m[k] == o[k];
  }

  lemma {:induction false} RunFlatArray(j: Json, es: seq<Entry>)
    requires j.Arr? && j.a != [] && |j.a| <= INT_MAX + 1 && IsFlat(es, j)
    ensures Run(Null, es) == Ok(j) <==> forall i | 0 <= i < |j.a| :: Restorable(j.a[i])
    ensures Faithful(j, Run(Null, es))
    decreases j, 0
  {
    hide Eq, Restorable;
    var a, names := j.a, IndexTokens(|j.a|);
    ArrayStartsAtZero(j, es);
    ArrayIsIndexed(j, es);
    RunFromNull(es);
    IndexTokensAreNames(|a|);
    RunArray([], es, names);
    var run := Run(Arr([]), es);
    forall i | 0 <= i < |a|
      ensures Under(es, names[i]) != []
      ensures Run(ElementOrNull([], i), Under(es, names[i])) == Ok(a[i]) <==> Restorable(a[i])
      ensures Faithful(a[i], Run(ElementOrNull([], i), Under(es, names[i])))
    {
      ElementIsFlat(j, es, i);
      RunFlat(a[i], Under(es, names[i]));
    }
    if run.Ok? {
      var r := run.value.a;
      assert ElementDone([], es, names[|a| - 1], |a| - 1, r);
      forall i | 0 <= i < |a|
        ensures (r[i] == a[i] <==> Restorable(a[i])) && Faithful(a[i], Ok(r[i]))
      {
        assert ElementDone([], es, names[i], i, r);
      }
      ElementsFaithful(a, r);
    }
  }

  lemma {:induction false} RunFlatObject(j: Json, es: seq<Entry>)
    requires j.Obj? && j.o != map[] && IsFlat(es, j) && !ZeroFirst(j.o)
    ensures Run(Null, es) == Ok(j) <==> forall k | k in j.o :: Restorable(j.o[k])
    ensures Faithful(j, Run(Null, es))
    decreases j, 0
  {
    hide Eq, Restorable;
    var o := j.o;
    ObjectStart(j, es);
    FlatIsRooted(j, es);
    RunFromNull(es);
    RunObject(map[], es);
    var run := Run(Obj(map[]), es);
    forall k | k in o
      ensures Under(es, k) != [] && (Run(Null, Under(es, k)) == Ok(o[k]) <==> Restorable(o[k]))
      ensures Faithful(o[k], Run(Null, Under(es, k)))
    {
      MemberIsFlat(j, es, k);
      RunFlat(o[k], Under(es, k));
    }
    forall t | t !in o ensures Under(es, t) == [] {
      if Under(es, t) != [] {
        var e := Under(es, t)[0];
        UnderMember(es, t, e);
        ObjectLeaf(j, [t] + e.path);
      }
    }
    if run.Ok? {
      var m := run.value.o;
      assert m.Keys == o.Keys;
      forall k | k in o ensures (m[k] == o[k] <==> Restorable(o[k])) && Faithful(o[k], Ok(m[k])) {
        assert MemberOrNull(m, k) == Run(MemberOrNull(map[], k), Under(es, k)).value;
      }
      MembersFaithful(o, m);
    } else {
      var t :| Run(MemberOrNull(map[], t), Under(es, t)).Err?;
      assert t in o;
    }
  }

  /** Running the leaves of a document in pointer order restores it exactly when it is restorable. */
  lemma {:induction false} RunFlat(j: Json, es: seq<Entry>)
    requires IsFlat(es, j)
    ensures Run(Null, es) == Ok(j) <==> Restorable(j)
    ensures Faithful(j, Run(Null, es))
    decreases j, 1
  {
    if !Structured(j) {
      FlatOfUnstructured(j, es);
      assert es[1..] == [];
    } else if j.Arr? {
      if |j.a| <= INT_MAX + 1 {
        RunFlatArray(j, es);
      } else {
        var i := INT_MAX + 1;
        ArrayStartsAtZero(j, es);
        FlatIsRooted(j, es);
        RunFromNull(es);
        var q := HasLeaf(j.a[i]);
        ElementLeaf(j, i, q);
        StoiOfIndex(i);
        var p := [ToDecimal(i)] + q;
        if Run(Null, es).Ok? {
          RunKeepsArray([], es, Entry(p, Leaves(j)[p]));
        }
      }
    } else {
      ObjectStart(j, es);
      FlatIsRooted(j, es);
      if ZeroFirst(j.o) {
        RunFromNull(es);
        if Run(Null, es).Ok? {
          RunKeepsArray([], es, es[0]);
        }
      } else {
        RunFlatObject(j, es);
      }
    }
  }

  // ----- from the flattened object to the run -----

  /** The entries of a flattened object, in key order. */
  function Entries(flat: map<string, Json>, ks: seq<string>): (es: seq<Entry>)
    requires forall k | k in ks :: k in flat && Split(k).Ok?
    ensures |es| == |ks|
    ensures forall i | 0 <= i < |ks| :: es[i] == Entry(Split(ks[i]).value, flat[ks[i]])
  {
    if ks == [] then [] else [Entry(Split(ks[0]).value, flat[ks[0]])] + Entries(flat, ks[1..])
  }

  lemma {:induction false} UnflattenedIsRun(j: Json, flat: map<string, Json>, ks: seq<string>)
    requires forall k | k in ks :: k in flat && Split(k).Ok? && flat[k].Primitive?()
    ensures UnflattenedKeys(j, flat, ks) == Run(j, Entries(flat, ks))
    decreases |ks|
  {
    if ks != [] {
      var next := CreateAt(j, Split(ks[0]).value, flat[ks[0]]);
      if next.Ok? {
        UnflattenedIsRun(next.value, flat, ks[1..]);
      }
    }
  }

  lemma ListedMember(flat: map<string, Json>, leaves: map<seq<string>, Json>, k: string)
    requires Lists(flat, leaves) && k in flat
    ensures Split(k).Ok? && ToString(Split(k).value) == k && Split(k).value in leaves
    ensures flat[k] == leaves[Split(k).value]
  {
    var p :| p in leaves && k == ToString(p);
    SplitToString(p);
  }

  lemma ListedLeaf(flat: map<string, Json>, leaves: map<seq<string>, Json>, p: seq<string>, ks: seq<string>)
    requires Lists(flat, leaves) && p in leaves
    requires (forall k :: k in ks <==> k in flat) && forall k | k in ks :: Split(k).Ok?
    ensures Entry(p, leaves[p]) in Entries(flat, ks)
  {
    SplitToString(p);
    var i :| 0 <= i < |ks| && ks[i] == ToString(p);
    assert Entries(flat, ks)[i] == Entry(p, leaves[p]);
  }

  lemma EntriesInOrder(flat: map<string, Json>, ks: seq<string>)
    requires forall k | k in ks :: k in flat && Split(k).Ok? && ToString(Split(k).value) == k
    requires Sorted(ks)
    ensures var es := Entries(flat, ks); forall i, k | 0 <= i < k < |es| :: PathLess(es[i].path, es[k].path)
  {
    var es := Entries(flat, ks);
    forall i, k | 0 <= i < k < |es| ensures PathLess(es[i].path, es[k].path) {
      assert ks[i] in ks && ks[k] in ks;
    }
  }

  lemma ListedEntries(flat: map<string, Json>, leaves: map<seq<string>, Json>, ks: seq<string>)
    requires Lists(flat, leaves) && forall k :: k in ks <==> k in flat
    ensures forall k | k in ks :: Split(k).Ok? && ToString(Split(k).value) == k
    ensures forall e | e in Entries(flat, ks) :: e.path in leaves && e.v == leaves[e.path]
    ensures forall p | p in leaves :: Entry(p, leaves[p]) in Entries(flat, ks)
  {
    forall k | k in ks ensures Split(k).Ok? && ToString(Split(k).value) == k { ListedMember(flat, leaves, k); }
    var es := Entries(flat, ks);
    forall e | e in es ensures e.path in leaves && e.v == leaves[e.path] {
      var i :| 0 <= i < |es| && es[i] == e;
      ListedMember(flat, leaves, ks[i]);
    }
    forall p | p in leaves ensures Entry(p, leaves[p]) in es { ListedLeaf(flat, leaves, p, ks); }
  }

  /** Running `unflatten` on a flattened document. */
  lemma UnflattenOfList(j: Json, flat: map<string, Json>)
    requires Lists(flat, Leaves(j))
    ensures Unflattened(Obj(flat)) == Ok(j) <==> Restorable(j)
    ensures Faithful(j, Unflattened(Obj(flat)))
  {
    hide Restorable, SortedKeys, Sorted, Split, Lists, Leaves, Faithful;
    var ks := SortedKeys(flat.Keys);
    ListedEntries(flat, Leaves(j), ks);
    EntriesInOrder(flat, ks);
    forall k | k in ks ensures flat[k].Primitive?() {
      ListedMember(flat, Leaves(j), k);
      LeavesArePrimitive(j, Split(k).value);
    }
    UnflattenedIsRun(Null, flat, ks);
    RunFlat(j, Entries(flat, ks));
  }

  /** The document comes back unchanged, leaf kinds included, exactly if it is restorable; otherwise it does
      not even compare equal to what comes back. */
  lemma RestoredExactly(j: Json)
    ensures var r := Unflattened(Obj(Flattened("", j, map[])));
      (r == Ok(j) <==> Restorable(j)) && (r.Ok? && Eq(j, r.value) ==> r.value == j)
  {
    hide Restorable, Unflattened, Flattened, Lists, Leaves, Eq;
    FlattenIsLeaves(j);
    UnflattenOfList(j, Flattened("", j, map[]));
  }

  /** `j == j.flatten().unflatten()`, under the library's equality, holds exactly for the restorable documents
      without NaN: besides empty containers, it fails for objects whose member "0" comes first, beyond `int`
      indices, and for a NaN, which equals nothing. */
  lemma UnflattenOfFlatten(j: Json)
    ensures var r := Unflattened(Obj(Flattened("", j, map[])));
      r.Ok? && Eq(j, r.value) <==> Restorable(j) && NaNFree(j)
  {
    hide Restorable, Unflattened, Flattened;
    RestoredExactly(j);
    EqReflexive(j);
  }

  /** A document without empty containers that is not restored: {"0": null} becomes an array. */
  lemma ZeroMemberIsLost()
    ensures var j := Obj(map["0" := Null]);
      var r := Unflattened(Obj(Flattened("", j, map[])));
      !Restorable(j) && !(r.Ok? && Eq(j, r.value))
  {
    var j := Obj(map["0" := Null]);
    assert ZeroFirst(j.o);
    UnflattenOfFlatten(j);
  }

  /** The other way to fail: a NaN is restored, but not equal to itself. */
  lemma NaNIsRestoredUnequal()
    ensures var j := Float(NaN);
      var r := Unflattened(Obj(Flattened("", j, map[])));
      r == Ok(j) && !Eq(j, r.value)
  {
    RestoredExactly(Float(NaN));
  }
}
