/** `flatten` and `unflatten`: a document as an object of pointers to its primitive values. */
module JsonFlatten {
  import opened Outcomes
  import opened Decimal
  import opened JsonPointer
  import opened JsonValue
  import opened JsonPatch

  // ----- flatten -----

  /** The entries `json_pointer::flatten` adds to `result` for a value at `reference`. */
  function Flattened(reference: string, value: Json, result: map<string, Json>): map<string, Json>
    decreases value, 1, 0
  {
    match value
    case Arr(a) =>
      if a == [] then result[reference := Null] else FlattenedElements(reference, value, |a|, result)
    case Obj(o) =>
      if o == map[] then result[reference := Null]
      else FlattenedMembers(reference, value, SortedKeys(o.Keys), result)
    case _ => result[reference := value]
  }

  /** The entries of the first `n` elements of an array. */
  function FlattenedElements(reference: string, value: Json, n: nat, result: map<string, Json>): map<string, Json>
    requires value.Arr? && n <= |value.a|
    decreases value, 0, n
  {
    if n == 0 then result
    else
      var before := FlattenedElements(reference, value, n - 1, result);
      Flattened(reference + "/" + ToDecimal(n - 1), value.a[n - 1], before)
  }

  /** The entries of the members `ks` of an object. */
  function FlattenedMembers(reference: string, value: Json, ks: seq<string>, result: map<string, Json>)
    : map<string, Json>
    requires value.Obj? && forall k | k in ks :: k in value.o
    decreases value, 0, |ks|
  {
    if ks == [] then result
    else
      var front, k := ks[..|ks| - 1], ks[|ks| - 1];
      var before := FlattenedMembers(reference, value, front, result);
      Flattened(reference + "/" + Escape(k), value.o[k], before)
  }

  lemma NoMembersFlattened(reference: string, value: Json, result: map<string, Json>)
    requires value.Obj?
    ensures FlattenedMembers(reference, value, [], result) == result
  {
  }

  lemma FlattenedMembersStep(reference: string, value: Json, ks: seq<string>, i: nat, result: map<string, Json>)
    requires value.Obj? && i < |ks| && forall k | k in ks :: k in value.o
    ensures FlattenedMembers(reference, value, ks[..i + 1], result)
      == Flattened(reference + "/" + Escape(ks[i]), value.o[ks[i]], FlattenedMembers(reference, value, ks[..i], result))
  {
    hide Flattened;
    assert ks[..i + 1][..i] == ks[..i];
  }

  method Flatten(reference: string, value: Json, flat: map<string, Json>) returns (result: map<string, Json>)
    ensures result == Flattened(reference, value, flat)
    decreases value, 1
  {
    if value.Arr? && value.a != [] {
      result := FlattenArray(reference, value, flat);
    } else if value.Obj? && value.o != map[] {
      result := FlattenObject(reference, value, flat);
    } else if value.Container?() {
      result := flat[reference := Null];
    } else {
      result := flat[reference := value];
    }
  }

  method FlattenArray(reference: string, value: Json, flat: map<string, Json>) returns (result: map<string, Json>)
    requires value.Arr?
    ensures result == FlattenedElements(reference, value, |value.a|, flat)
    decreases value, 0
  {
    result := flat;
    for i := 0 to |value.a|
      invariant result == FlattenedElements(reference, value, i, flat)
    {
      result := Flatten(reference + "/" + ToDecimal(i), value.a[i], result);
    }
  }

  method FlattenObject(reference: string, value: Json, flat: map<string, Json>) returns (result: map<string, Json>)
    requires value.Obj?
    ensures result == FlattenedMembers(reference, value, SortedKeys(value.o.Keys), flat)
    decreases value, 0
  {
    hide Flattened, FlattenedMembers, SortedKeys, Sorted, Escape;
    result := flat;
    var ks := SortedKeys(value.o.Keys);
    NoMembersFlattened(reference, value, flat);
    for i := 0 to |ks|
      invariant result == FlattenedMembers(reference, value, ks[..i], flat)
    {
      FlattenedMembersStep(reference, value, ks, i, flat);
      result := Flatten(reference + "/" + Escape(ks[i]), value.o[ks[i]], result);
    }
    assert ks[..|ks|] == ks;
  }

  // ----- unflatten -----

  /** `get_and_create` followed by an assignment to the reference it returns. */
  function CreateAt(j: Json, tokens: seq<string>, v: Json): Result<Json>
    decreases |tokens|
  {
    if tokens == [] then Ok(v)
    else
      match j
      case Null =>
        var child :- CreateAt(Null, tokens[1..], v);
        Ok(if tokens[0] == "0" then Arr([child]) else Obj(map[tokens[0] := child]))
      case Obj(o) =>
        var child :- CreateAt(MemberOrNull(o, tokens[0]), tokens[1..], v);
        Ok(Obj(o[tokens[0] := child]))
      case Arr(a) =>
        var i :- Stoi(tokens[0]);
        if i < 0 then Err(LengthError)
        else
          var child :- CreateAt(Grown(a, i)[i], tokens[1..], v);
          Ok(Arr(Grown(a, i)[i := child]))
      case _ => Err(DomainError)
  }

  function MemberOrNull(o: map<string, Json>, k: string): Json {
    if k in o then o[k] else Null
  }

  /** The elements `ks` of a flattened object, assigned one after the other. */
  function UnflattenedKeys(j: Json, flat: map<string, Json>, ks: seq<string>): Result<Json>
    requires forall k | k in ks :: k in flat
    decreases |ks|
  {
    if ks == [] then Ok(j)
    else if !flat[ks[0]].Primitive?() then Err(DomainError)
    else
      var path :- Split(ks[0]);
      var next :- CreateAt(j, path, flat[ks[0]]);
      UnflattenedKeys(next, flat, ks[1..])
  }

  function Unflattened(value: Json): Result<Json> {
    if value.Obj? then UnflattenedKeys(Null, value.o, SortedKeys(value.o.Keys)) else Err(DomainError)
  }

  method Unflatten(value: Json) returns (r: Result<Json>)
    ensures r == Unflattened(value)
  {
    if !value.Obj? {
      return Err(DomainError);
    }
    var result := Null;
    var ks := SortedKeys(value.o.Keys);
    for i := 0 to |ks|
      invariant Unflattened(value) == UnflattenedKeys(result, value.o, ks[i..])
    {
      assert ks[i..][1..] == ks[i + 1..];
      if !value.o[ks[i]].Primitive?() {
        return Err(DomainError);
      }
      var path :- Split(ks[i]);
      result :- CreateAt(result, path, value.o[ks[i]]);
    }
    return Ok(result);
  }

  // ----- the leaves of a document -----

  /** The index below `n` that a token was printed from. */
  ghost function IndexOf(token: string, n: nat): (i: Option<nat>)
    ensures i.Some? ==> i.value < n && ToDecimal(i.value) == token
    ensures i.None? ==> forall k: nat | k < n :: ToDecimal(k) != token
  {
    if k: nat :| k < n && ToDecimal(k) == token then Some(k) else None
  }

  lemma IndexOfDecimal(i: nat, n: nat)
    requires i < n
    ensures IndexOf(ToDecimal(i), n) == Some(i)
  {
    var found := IndexOf(ToDecimal(i), n);
    assert found.Some?;
    ToDecimalInjective(found.value, i);
  }

  /** The paths of a child, seen from its parent. */
  ghost function Prefixed(token: string, leaves: map<seq<string>, Json>): map<seq<string>, Json> {
    assert forall q: seq<string> {:trigger [token] + q} :: ([token] + q)[1..] == q;
    map p | p in (set q | q in leaves :: [token] + q) :: leaves[p[1..]]
  }

  lemma PrefixedAre(token: string, leaves: map<seq<string>, Json>)
    ensures forall p :: p in Prefixed(token, leaves) <==> p != [] && p[0] == token && p[1..] in leaves
    ensures forall p | p in Prefixed(token, leaves) :: Prefixed(token, leaves)[p] == leaves[p[1..]]
  {
    forall p | p != [] && p[0] == token && p[1..] in leaves ensures p in Prefixed(token, leaves) {
      assert p == [token] + p[1..];
    }
    assert forall q: seq<string> {:trigger [token] + q} :: ([token] + q)[1..] == q;
  }

  /** The primitive values of a document by token path; an empty container counts as null. */
  ghost function Leaves(j: Json): map<seq<string>, Json>
    decreases j, 1, 0
  {
    match j
    case Arr(a) => if a == [] then map[[] := Null] else ElementLeaves(j, |a|)
    case Obj(o) => if o == map[] then map[[] := Null] else MemberLeaves(j, SortedKeys(o.Keys))
    case _ => map[[] := j]
  }

  ghost function ElementLeaves(j: Json, n: nat): map<seq<string>, Json>
    requires j.Arr? && n <= |j.a|
    decreases j, 0, n
  {
    if n == 0 then map[] else ElementLeaves(j, n - 1) + Prefixed(ToDecimal(n - 1), Leaves(j.a[n - 1]))
  }

  ghost function MemberLeaves(j: Json, ks: seq<string>): map<seq<string>, Json>
    requires j.Obj? && forall k | k in ks :: k in j.o
    decreases j, 0, |ks|
  {
    if ks == [] then map[]
    else
      var front, k := ks[..|ks| - 1], ks[|ks| - 1];
      MemberLeaves(j, front) + Prefixed(k, Leaves(j.o[k]))
  }

  lemma IndexOfStep(token: string, n: nat)
    ensures IndexOf(token, n + 1) == if token == ToDecimal(n) then Some(n) else IndexOf(token, n)
    ensures token == ToDecimal(n) ==> IndexOf(token, n).None?
  {
    IndexOfDecimal(n, n + 1);
    var i := IndexOf(token, n);
    if i.Some? {
      IndexOfDecimal(i.value, n + 1);
    }
  }

  /** The element a path leads into. */
  ghost predicate InElement(j: Json, n: nat, p: seq<string>)
    requires j.Arr? && n <= |j.a|
  {
    p != [] && IndexOf(p[0], n).Some? && p[1..] in Leaves(j.a[IndexOf(p[0], n).value])
  }

  lemma ElementLeavesStep(j: Json, n: nat, m: map<seq<string>, Json>, more: map<seq<string>, Json>)
    requires j.Arr? && 0 < n <= |j.a| && m == ElementLeaves(j, n - 1) && more == Leaves(j.a[n - 1])
    ensures ElementLeaves(j, n) == m + Prefixed(ToDecimal(n - 1), more)
  {
  }

  lemma {:induction false} ElementLeavesAre(j: Json, n: nat, p: seq<string>)
    requires j.Arr? && n <= |j.a|
    ensures p in ElementLeaves(j, n) <==> InElement(j, n, p)
    ensures InElement(j, n, p) ==> ElementLeaves(j, n)[p] == Leaves(j.a[IndexOf(p[0], n).value])[p[1..]]
    decreases n
  {
    if n > 0 {
      var token, more := ToDecimal(n - 1), Leaves(j.a[n - 1]);
      ElementLeavesAre(j, n - 1, p);
      ElementLeavesStep(j, n, ElementLeaves(j, n - 1), more);
      PrefixedAre(token, more);
      if p != [] {
        IndexOfStep(p[0], n - 1);
      }
    }
  }

  lemma MemberLeavesStep(j: Json, front: seq<string>, k: string, m: map<seq<string>, Json>,
                         more: map<seq<string>, Json>)
    requires j.Obj? && k in j.o && (forall x | x in front :: x in j.o)
    requires m == MemberLeaves(j, front) && more == Leaves(j.o[k])
    ensures (forall x | x in front + [k] :: x in j.o) && MemberLeaves(j, front + [k]) == m + Prefixed(k, more)
  {
    assert (front + [k])[..|front|] == front;
  }

  lemma {:induction false} MemberLeavesAre(j: Json, ks: seq<string>, p: seq<string>)
    requires j.Obj? && forall k | k in ks :: k in j.o
    ensures p in MemberLeaves(j, ks) <==> p != [] && p[0] in ks && p[1..] in Leaves(j.o[p[0]])
    ensures p in MemberLeaves(j, ks) ==> MemberLeaves(j, ks)[p] == Leaves(j.o[p[0]])[p[1..]]
    decreases |ks|
  {
    hide Leaves, Prefixed;
    if ks != [] {
      var front, k := ks[..|ks| - 1], ks[|ks| - 1];
      MemberLeavesAre(j, front, p);
      PrefixedAre(k, Leaves(j.o[k]));
      assert ks == front + [k];
      MemberLeavesStep(j, front, k, MemberLeaves(j, front), Leaves(j.o[k]));
    }
  }

  /** The leaves of a non-empty array. */
  lemma ArrayLeaf(j: Json, p: seq<string>)
    requires j.Arr? && j.a != []
    ensures p in Leaves(j) <==> InElement(j, |j.a|, p)
    ensures p in Leaves(j) ==> Leaves(j)[p] == Leaves(j.a[IndexOf(p[0], |j.a|).value])[p[1..]]
  {
    ElementLeavesAre(j, |j.a|, p);
  }

  /** The leaves of a non-empty object. */
  lemma ObjectLeaf(j: Json, p: seq<string>)
    requires j.Obj? && j.o != map[]
    ensures p in Leaves(j) <==> p != [] && p[0] in j.o && p[1..] in Leaves(j.o[p[0]])
    ensures p in Leaves(j) ==> Leaves(j)[p] == Leaves(j.o[p[0]])[p[1..]]
  {
    MemberLeavesAre(j, SortedKeys(j.o.Keys), p);
  }

  /** A leaf of the element at index `i`, seen from the array. */
  lemma ElementLeaf(j: Json, i: nat, q: seq<string>)
    requires j.Arr? && i < |j.a|
    ensures var p := [ToDecimal(i)] + q;
      p[1..] == q && (p in Leaves(j) <==> q in Leaves(j.a[i])) &&
      (p in Leaves(j) ==> Leaves(j)[p] == Leaves(j.a[i])[q])
  {
    var p := [ToDecimal(i)] + q;
    assert p[1..] == q;
    IndexOfDecimal(i, |j.a|);
    ArrayLeaf(j, p);
  }

  lemma MemberLeaf(j: Json, k: string, q: seq<string>)
    requires j.Obj? && k in j.o
    ensures var p := [k] + q;
      p[1..] == q && (p in Leaves(j) <==> q in Leaves(j.o[k])) &&
      (p in Leaves(j) ==> Leaves(j)[p] == Leaves(j.o[k])[q])
  {
    var p := [k] + q;
    assert p[1..] == q;
    ObjectLeaf(j, p);
  }

  lemma {:induction false} LeavesArePrimitive(j: Json, p: seq<string>)
    requires p in Leaves(j)
    ensures Leaves(j)[p].Primitive?()
    decreases |p|
  {
    if j.Arr? && j.a != [] {
      ArrayLeaf(j, p);
      LeavesArePrimitive(j.a[IndexOf(p[0], |j.a|).value], p[1..]);
    } else if j.Obj? && j.o != map[] {
      ObjectLeaf(j, p);
      LeavesArePrimitive(j.o[p[0]], p[1..]);
    }
  }

  /** Every value has a leaf. */
  lemma {:induction false} HasLeaf(j: Json) returns (p: seq<string>)
    ensures p in Leaves(j)
    decreases j
  {
    p := [];
    if j.Arr? && j.a != [] {
      var q := HasLeaf(j.a[0]);
      ElementLeaf(j, 0, q);
      p := [ToDecimal(0)] + q;
    } else if j.Obj? && j.o != map[] {
      var k :| k in j.o;
      var q := HasLeaf(j.o[k]);
      MemberLeaf(j, k, q);
      p := [k] + q;
    }
  }

  // ----- what flatten produces -----

  lemma ToStringInjective(p: seq<string>, q: seq<string>)
    requires ToString(p) == ToString(q)
    ensures p == q
  {
    SplitToString(p);
    SplitToString(q);
  }

  ghost predicate Injective(name: seq<string> -> string) {
    forall q, r :: name(q) == name(r) ==> q == r
  }

  ghost function NamedBy(name: seq<string> -> string, leaves: map<seq<string>, Json>, k: string): seq<string>
    requires exists q :: q in leaves && name(q) == k
  {
    var q :| q in leaves && name(q) == k; q
  }

  /** The leaves under other names. */
  ghost function Renamed(name: seq<string> -> string, leaves: map<seq<string>, Json>): map<string, Json>
    requires Injective(name)
  {
    var names := set q | q in leaves :: name(q);
    map k | k in names :: leaves[NamedBy(name, leaves, k)]
  }

  lemma RenamedAt(name: seq<string> -> string, leaves: map<seq<string>, Json>, q: seq<string>)
    requires Injective(name)
    ensures name(q) in Renamed(name, leaves) <==> q in leaves
    ensures q in leaves ==> Renamed(name, leaves)[name(q)] == leaves[q]
  {
  }

  lemma RenamedFrom(name: seq<string> -> string, leaves: map<seq<string>, Json>, k: string)
    requires Injective(name) && k in Renamed(name, leaves)
    ensures exists q :: q in leaves && k == name(q)
  {
  }

  lemma RenamedSum(name: seq<string> -> string, some: map<seq<string>, Json>, more: map<seq<string>, Json>)
    requires Injective(name)
    ensures Renamed(name, some + more) == Renamed(name, some) + Renamed(name, more)
  {
    var lhs, rhs := Renamed(name, some + more), Renamed(name, some) + Renamed(name, more);
    forall k | k in lhs ensures k in rhs && rhs[k] == lhs[k] {
      var q :| q in some + more && k == name(q);
      RenamedAt(name, some + more, q);
      RenamedAt(name, some, q);
      RenamedAt(name, more, q);
    }
    forall k | k in rhs ensures k in lhs {
      if k in Renamed(name, more) {
        var q :| q in more && k == name(q);
        RenamedAt(name, some + more, q);
      } else {
        var q :| q in some && k == name(q);
        RenamedAt(name, some + more, q);
      }
    }
  }

  /** Renaming the leaves of a child seen from its parent, and seen from itself. */
  lemma RenamedPrefixed(name: seq<string> -> string, inner: seq<string> -> string, token: string,
                        leaves: map<seq<string>, Json>)
    requires Injective(name) && Injective(inner) && forall q :: inner(q) == name([token] + q)
    ensures Renamed(name, Prefixed(token, leaves)) == Renamed(inner, leaves)
  {
    PrefixedAre(token, leaves);
    hide Prefixed, Renamed;
    var lhs, rhs := Renamed(name, Prefixed(token, leaves)), Renamed(inner, leaves);
    forall k | k in lhs ensures k in rhs && rhs[k] == lhs[k] {
      RenamedFrom(name, Prefixed(token, leaves), k);
      var q :| q in Prefixed(token, leaves) && k == name(q);
      assert q == [token] + q[1..];
      assert k == inner(q[1..]);
      RenamedAt(name, Prefixed(token, leaves), q);
      RenamedAt(inner, leaves, q[1..]);
    }
    forall k | k in rhs ensures k in lhs {
      RenamedFrom(inner, leaves, k);
      var r :| r in leaves && k == inner(r);
      assert ([token] + r)[1..] == r;
      RenamedAt(name, Prefixed(token, leaves), [token] + r);
    }
  }

  /** A way to name paths as pointers below some reference. */
  ghost predicate Pointers(name: seq<string> -> string) {
    Injective(name) && forall q, t :: name(q + [t]) == name(q) + "/" + Escape(t)
  }

  /** The same names, for paths that start below `token`. */
  ghost function Shifted(name: seq<string> -> string, token: string): (inner: seq<string> -> string)
    ensures forall q :: inner(q) == name([token] + q)
  {
    q => name([token] + q)
  }

  lemma ShiftedPointers(name: seq<string> -> string, token: string)
    requires Pointers(name)
    ensures Pointers(Shifted(name, token))
    ensures Shifted(name, token)([]) == name([]) + "/" + Escape(token)
  {
    var inner := Shifted(name, token);
    forall q, r | inner(q) == inner(r) ensures q == r {
      assert ([token] + q)[1..] == q && ([token] + r)[1..] == r;
    }
    forall q, t ensures inner(q + [t]) == inner(q) + "/" + Escape(t) {
      assert [token] + (q + [t]) == ([token] + q) + [t];
    }
    assert [token] + [] == [] + [token];
  }

  /** One more child in a running `flatten`. */
  lemma RenamedStep(name: seq<string> -> string, token: string, before: map<string, Json>,
                    some: map<seq<string>, Json>, more: map<seq<string>, Json>)
    requires Pointers(name) && Pointers(Shifted(name, token))
    ensures before + Renamed(name, some) + Renamed(Shifted(name, token), more) ==
      before + Renamed(name, some + Prefixed(token, more))
  {
    RenamedPrefixed(name, Shifted(name, token), token, more);
    RenamedSum(name, some, Prefixed(token, more));
    MapSumAssociative(before, Renamed(name, some), Renamed(Shifted(name, token), more));
  }

  lemma RenamedNothing(name: seq<string> -> string, before: map<string, Json>)
    requires Injective(name)
    ensures before + Renamed(name, map[]) == before
  {
  }

  lemma MapSumAssociative(a: map<string, Json>, b: map<string, Json>, c: map<string, Json>)
    ensures a + b + c == a + (b + c)
  {
  }

  /** `flatten` stores exactly the leaves, each under the pointer to it. */
  lemma {:induction false} FlattenedLeaves(name: seq<string> -> string, j: Json, before: map<string, Json>)
    requires Pointers(name)
    ensures Flattened(name([]), j, before) == before + Renamed(name, Leaves(j))
    decreases j, 1, 0
  {
    if j.Arr? && j.a != [] {
      FlattenedElementLeaves(name, j, |j.a|, before);
    } else if j.Obj? && j.o != map[] {
      FlattenedMemberLeaves(name, j, SortedKeys(j.o.Keys), before);
    } else {
      var v := if j.Primitive?() then j else Null;
      RenamedAt(name, map[[] := v], []);
      assert Renamed(name, map[[] := v]) == map[name([]) := v];
    }
  }

  lemma FlattenedElementsStep(reference: string, j: Json, n: nat, before: map<string, Json>, m: map<string, Json>)
    requires j.Arr? && 0 < n <= |j.a| && m == FlattenedElements(reference, j, n - 1, before)
    ensures FlattenedElements(reference, j, n, before) == Flattened(reference + "/" + ToDecimal(n - 1), j.a[n - 1], m)
  {
  }

  lemma {:induction false} FlattenedElementLeaves(name: seq<string> -> string, j: Json, n: nat,
                                                  before: map<string, Json>)
    requires Pointers(name) && j.Arr? && n <= |j.a|
    ensures FlattenedElements(name([]), j, n, before) == before + Renamed(name, ElementLeaves(j, n))
    decreases j, 0, n
  {
    if n == 0 {
      RenamedNothing(name, before);
    } else {
      var token := ToDecimal(n - 1);
      assert Escape(token) == token by { EscapeDigits(token); }
      FlattenedElementLeaves(name, j, n - 1, before);
      var m := before + Renamed(name, ElementLeaves(j, n - 1));
      FlattenedElementsStep(name([]), j, n, before, m);
      FlattenedChild(name, token, j.a[n - 1], before, ElementLeaves(j, n - 1));
    }
  }

  lemma {:induction false} FlattenedMemberLeaves(name: seq<string> -> string, j: Json, ks: seq<string>,
                                                 before: map<string, Json>)
    requires Pointers(name) && j.Obj? && forall k | k in ks :: k in j.o
    ensures FlattenedMembers(name([]), j, ks, before) == before + Renamed(name, MemberLeaves(j, ks))
    decreases j, 0, |ks|
  {
    if ks == [] {
      RenamedNothing(name, before);
    } else {
      var front, k := ks[..|ks| - 1], ks[|ks| - 1];
      FlattenedMemberLeaves(name, j, front, before);
      FlattenedChild(name, k, j.o[k], before, MemberLeaves(j, front));
    }
  }

  lemma {:induction false} FlattenedChild(name: seq<string> -> string, token: string, child: Json,
                                          before: map<string, Json>, some: map<seq<string>, Json>)
    requires Pointers(name)
    ensures Flattened(name([]) + "/" + Escape(token), child, before + Renamed(name, some)) ==
      before + Renamed(name, some + Prefixed(token, Leaves(child)))
    decreases child, 2, 0
  {
    ShiftedPointers(name, token);
    FlattenedLeaves(Shifted(name, token), child, before + Renamed(name, some));
    RenamedStep(name, token, before, some, Leaves(child));
  }

  /** `ToString` as a function value. */
  ghost function Printed(): (name: seq<string> -> string)
    ensures forall q :: name(q) == ToString(q)
    ensures Pointers(name)
  {
    forall q, r | ToString(q) == ToString(r) ensures q == r { ToStringInjective(q, r); }
    forall q, t ensures ToString(q + [t]) == ToString(q) + "/" + Escape(t) { ReferenceOf(q, t); }
    q => ToString(q)
  }

  lemma ReferenceOf(p: seq<string>, token: string)
    ensures ToString(p + [token]) == ToString(p) + "/" + Escape(token)
  {
    ToStringAppend(p, [token]);
    KeySegment(token);
    var a, b := ToString(p), Escape(token);
    assert a + ("/" + b) == a + "/" + b;
  }

  /** `flat` lists `leaves` under their printed pointers. */
  ghost predicate Lists(flat: map<string, Json>, leaves: map<seq<string>, Json>) {
    && (forall p | p in leaves :: ToString(p) in flat && flat[ToString(p)] == leaves[p])
    && (forall k | k in flat :: exists p :: p in leaves && k == ToString(p))
  }

  lemma RenamedLists(name: seq<string> -> string, leaves: map<seq<string>, Json>, flat: map<string, Json>)
    requires Injective(name) && flat == Renamed(name, leaves) && forall p :: name(p) == ToString(p)
    ensures Lists(flat, leaves)
  {
    forall p | p in leaves ensures ToString(p) in flat && flat[ToString(p)] == leaves[p] {
      RenamedAt(name, leaves, p);
    }
    forall k | k in flat ensures exists p :: p in leaves && k == ToString(p) {
      var p :| p in leaves && k == name(p);
    }
  }

  /** The object `flatten()` returns: one member per leaf, named by its pointer. */
  lemma FlattenIsLeaves(j: Json)
    ensures Lists(Flattened("", j, map[]), Leaves(j))
  {
    var name := Printed();
    assert name([]) == "";
    FlattenedLeaves(name, j, map[]);
    SumWithNothing(Renamed(name, Leaves(j)));
    RenamedLists(name, Leaves(j), Flattened("", j, map[]));
  }

  lemma SumWithNothing(m: map<string, Json>)
    ensures map[] + m == m
  {
  }
}
